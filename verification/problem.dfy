/** The time-weighted fire engine (`OSMFProblem` of
    `backend/src/firefighter/problem.rs`). Fire crosses an edge of weight
    `w` from a node that caught fire at `t` once the clock reaches `t + w`;
    every `strategy_every` ticks a containment strategy defends some nodes.
    The strategy itself is not part of this model: its choice at a tick is an
    input. Random draws are an input sequence of node ids. */
module WeightedEngine {

  import opened Wrappers
  import opened GraphStore
  import opened NodeStore
  import opened SortedSets

  datatype Settings = Settings(numRoots: nat, numFfs: nat, strategyEvery: nat)

  datatype Problem = Problem(graph: Graph, settings: Settings, nodeData: Storage, globalTime: nat, isActive: bool)

  /** The panic of `new` when more roots are asked for than there are nodes. */
  datatype NewError = TooManyRoots

  /** The spread can look up the out-edges of every burning record. */
  predicate Scannable(g: Graph, s: Storage) {
    && ValidGraph(g)
    && (forall k :: k in s.burning ==> s.burning[k].nodeId < g.numNodes)
  }

  /** The state the engine keeps: a valid graph, a positive strategy period,
      and records filed under their own ids. */
  predicate Wf(p: Problem) {
    && Scannable(p.graph, p.nodeData)
    && p.settings.strategyEvery > 0
    && KeysMatch(p.nodeData.burning)
    && KeysMatch(p.nodeData.defended)
  }

  // ---------------------------------------------------------------------
  // Spreading the fire
  // ---------------------------------------------------------------------

  /** Some edge of `es` leads to an undefended node. */
  ghost predicate SliceExposed(s: Storage, es: seq<Edge>) {
    exists e :: e in es && IsUndefended(s, e.tgt)
  }

  /** Some edge of `es`, leaving a node that caught fire at `tb`, has carried
      the fire to the undefended node `v` by time `now`. */
  ghost predicate SliceIgnites(s: Storage, now: nat, tb: nat, es: seq<Edge>, v: nat) {
    exists e :: e in es && e.tgt == v && IsUndefended(s, v) && now >= tb + e.dist
  }

  datatype Scan = Scan(toBurn: seq<nat>, active: bool)

  /** The inner loop of `spread_fire` over the out-edges `es` of one burning
      node that caught fire at `tb`. */
  function ScanEdges(s: Storage, now: nat, tb: nat, es: seq<Edge>): (r: Scan)
    ensures r.active <==> SliceExposed(s, es)
    ensures forall v :: v in r.toBurn <==> SliceIgnites(s, now, tb, es, v)
  {
    if |es| == 0 then Scan([], false)
    else
      var pre, e := es[..|es| - 1], es[|es| - 1];
      var r := ScanEdges(s, now, tb, pre);
      assert forall f :: f in es <==> f in pre || f == e by {
        assert es == pre + [e];
      }
      if IsUndefended(s, e.tgt) then
        Scan(r.toBurn + (if now >= tb + e.dist then [e.tgt] else []), true)
      else r
  }

  /** `outs[i]` holds exactly the edges of `g` leaving the node of `rs[i]`. */
  ghost predicate RecordSlices(g: Graph, rs: seq<NodeData>, outs: seq<seq<Edge>>) {
    && |outs| == |rs|
    && forall i, e :: 0 <= i < |rs| ==> (e in outs[i] <==> e in g.edges && e.src == rs[i].nodeId)
  }

  /** The out-edge slices of the nodes of the records `rs`, in order. */
  function Neighbourhoods(g: Graph, rs: seq<NodeData>): (outs: seq<seq<Edge>>)
    requires ValidGraph(g) && forall i :: 0 <= i < |rs| ==> rs[i].nodeId < g.numNodes
    ensures RecordSlices(g, rs, outs)
  {
    var ids := seq(|rs|, i requires 0 <= i < |rs| => rs[i].nodeId);
    var outs := OutSlices(g, ids);
    assert forall i :: 0 <= i < |rs| ==> ids[i] == rs[i].nodeId;
    outs
  }

  /** Some record has an out-edge to an undefended node. */
  ghost predicate AnyExposed(s: Storage, rs: seq<NodeData>, outs: seq<seq<Edge>>)
    requires |outs| == |rs|
  {
    exists i :: 0 <= i < |rs| && SliceExposed(s, outs[i])
  }

  /** Some record has carried the fire to `v` by time `now`. */
  ghost predicate AnyIgnites(s: Storage, now: nat, rs: seq<NodeData>, outs: seq<seq<Edge>>, v: nat)
    requires |outs| == |rs|
  {
    exists i :: 0 <= i < |rs| && SliceIgnites(s, now, rs[i].time, outs[i], v)
  }

  /** The outer loop of `spread_fire` over the burning records `rs`, whose
      out-edge slices are `outs`. */
  function ScanRecords(s: Storage, now: nat, rs: seq<NodeData>, outs: seq<seq<Edge>>): (r: Scan)
    requires |outs| == |rs|
    ensures r.active <==> AnyExposed(s, rs, outs)
    ensures forall v :: v in r.toBurn <==> AnyIgnites(s, now, rs, outs, v)
  {
    if |rs| == 0 then Scan([], false)
    else
      var n := |rs| - 1;
      var r := ScanRecords(s, now, rs[..n], outs[..n]);
      var x := ScanEdges(s, now, rs[n].time, outs[n]);
      assert forall i :: 0 <= i < n ==> rs[..n][i] == rs[i] && outs[..n][i] == outs[i];
      Scan(r.toBurn + x.toBurn, r.active || x.active)
  }

  /** A burning node has an out-edge to an undefended node. */
  ghost predicate Exposed(g: Graph, s: Storage) {
    exists b, e :: b in s.burning && e in g.edges && e.src == b && IsUndefended(s, e.tgt)
  }

  /** The undefended node `v` is the target of an edge whose source has been
      burning long enough for the fire to cross it by time `now`. */
  ghost predicate Ignites(g: Graph, s: Storage, now: nat, v: nat) {
    && IsUndefended(s, v)
    && exists b, e :: b in s.burning && e in g.edges && e.src == b && e.tgt == v
                      && now >= s.burning[b].time + e.dist
  }

  /** The scan of `spread_fire`: over the burning records in key order. */
  function ScanBurning(g: Graph, s: Storage, now: nat): Scan
    requires Scannable(g, s)
  {
    var rs := Values(s.burning);
    ScanRecords(s, now, rs, Neighbourhoods(g, rs))
  }

  /** `spread_fire`: scans the records as they were at the start of the tick,
      then marks every collected node burning at the current time. */
  function SpreadFire(p: Problem): (r: Problem)
    requires Scannable(p.graph, p.nodeData)
    ensures r.graph == p.graph && r.settings == p.settings && r.globalTime == p.globalTime
    ensures r.nodeData.defended == p.nodeData.defended
  {
    var scan := ScanBurning(p.graph, p.nodeData, p.globalTime);
    p.(nodeData := MarkBurning(p.nodeData, scan.toBurn, p.globalTime), isActive := scan.active)
  }

  /** The records `rs` are the burning map's values, filed under their ids,
      and `outs[i]` holds exactly the edges leaving the node of `rs[i]`. */
  ghost predicate ScanInputs(g: Graph, s: Storage, rs: seq<NodeData>, outs: seq<seq<Edge>>) {
    && KeysMatch(s.burning)
    && (forall x :: x in rs <==> exists k :: k in s.burning && s.burning[k] == x)
    && RecordSlices(g, rs, outs)
  }

  lemma ExposedFromScan(g: Graph, s: Storage, rs: seq<NodeData>, outs: seq<seq<Edge>>)
    requires ScanInputs(g, s, rs, outs)
    ensures AnyExposed(s, rs, outs) <==> Exposed(g, s)
  {
    if AnyExposed(s, rs, outs) {
      var i :| 0 <= i < |rs| && SliceExposed(s, outs[i]);
      var e :| e in outs[i] && IsUndefended(s, e.tgt);
      assert rs[i] in rs;
      var k :| k in s.burning && s.burning[k] == rs[i];
      assert e in g.edges && e.src == k;
    }
    if Exposed(g, s) {
      var b, e :| b in s.burning && e in g.edges && e.src == b && IsUndefended(s, e.tgt);
      assert s.burning[b] in rs;
      var i :| 0 <= i < |rs| && rs[i] == s.burning[b];
      assert e in outs[i];
    }
  }

  lemma IgnitesFromScan(g: Graph, s: Storage, now: nat, rs: seq<NodeData>, outs: seq<seq<Edge>>, v: nat)
    requires ScanInputs(g, s, rs, outs)
    ensures AnyIgnites(s, now, rs, outs, v) <==> Ignites(g, s, now, v)
  {
    if AnyIgnites(s, now, rs, outs, v) {
      var i :| 0 <= i < |rs| && SliceIgnites(s, now, rs[i].time, outs[i], v);
      var e :| e in outs[i] && e.tgt == v && IsUndefended(s, v) && now >= rs[i].time + e.dist;
      assert rs[i] in rs;
      var k :| k in s.burning && s.burning[k] == rs[i];
      assert e in g.edges && e.src == k;
    }
    if Ignites(g, s, now, v) {
      var b, e :| b in s.burning && e in g.edges && e.src == b && e.tgt == v
                  && now >= s.burning[b].time + e.dist;
      assert s.burning[b] in rs;
      var i :| 0 <= i < |rs| && rs[i] == s.burning[b];
      assert e in outs[i];
    }
  }

  /** The burning records in key order and their slices are inputs of the
      kind the two lemmas above read. */
  lemma ScanInputsHold(g: Graph, s: Storage)
    requires Scannable(g, s) && KeysMatch(s.burning)
    ensures var rs := Values(s.burning); ScanInputs(g, s, rs, Neighbourhoods(g, rs))
  {
    var rs := Values(s.burning);
    var outs := Neighbourhoods(g, rs);
  }

  /** Reading the scan over the records in key order as statements about
      the burning map and the edges of the graph. */
  lemma ScanMeaning(g: Graph, s: Storage, now: nat)
    requires Scannable(g, s) && KeysMatch(s.burning)
    ensures var scan := ScanBurning(g, s, now);
      && (scan.active <==> Exposed(g, s))
      && (forall v :: v in scan.toBurn <==> Ignites(g, s, now, v))
  {
    var rs := Values(s.burning);
    var outs := Neighbourhoods(g, rs);
    ScanInputsHold(g, s);
    ExposedFromScan(g, s, rs, outs);
    forall v
      ensures v in ScanRecords(s, now, rs, outs).toBurn <==> Ignites(g, s, now, v)
    {
      IgnitesFromScan(g, s, now, rs, outs, v);
    }
  }

  /** What one spread does: `is_active` says whether a node burning at the
      start of the tick had an undefended out-neighbour (judged before this
      tick's marks); exactly the ignited nodes are added, with the current
      time, and no existing record changes. */
  lemma SpreadFireEffect(p: Problem)
    requires Scannable(p.graph, p.nodeData) && KeysMatch(p.nodeData.burning)
    ensures SpreadFire(p).isActive <==> Exposed(p.graph, p.nodeData)
    ensures forall v :: IsBurning(SpreadFire(p).nodeData, v) <==>
              IsBurning(p.nodeData, v) || Ignites(p.graph, p.nodeData, p.globalTime, v)
    ensures forall v :: IsBurning(p.nodeData, v) ==> SpreadFire(p).nodeData.burning[v] == p.nodeData.burning[v]
    ensures forall v :: IsBurning(SpreadFire(p).nodeData, v) && !IsBurning(p.nodeData, v) ==>
              SpreadFire(p).nodeData.burning[v] == NodeData(v, p.globalTime)
  {
    var scan := ScanBurning(p.graph, p.nodeData, p.globalTime);
    var r := SpreadFire(p);
    ScanMeaning(p.graph, p.nodeData, p.globalTime);
    SpreadMarks(p);
    forall v | IsBurning(p.nodeData, v)
      ensures r.nodeData.burning[v] == p.nodeData.burning[v]
    {
      assert v !in scan.toBurn;
    }
    forall v | IsBurning(r.nodeData, v) && !IsBurning(p.nodeData, v)
      ensures r.nodeData.burning[v] == NodeData(v, p.globalTime)
    {
      assert v in scan.toBurn;
    }
  }

  /** The marks of a spread, in terms of the scan. */
  lemma SpreadMarks(p: Problem)
    requires Scannable(p.graph, p.nodeData)
    ensures var scan := ScanBurning(p.graph, p.nodeData, p.globalTime);
      && SpreadFire(p).isActive == scan.active
      && SpreadFire(p).nodeData.burning == Mark(p.nodeData.burning, scan.toBurn, p.globalTime)
  {
  }

  // ---------------------------------------------------------------------
  // Containment and the step
  // ---------------------------------------------------------------------

  /** `contain_fire`: the strategy's choice is marked defended at the current
      time, but only on ticks that are multiples of `strategy_every`. */
  function ContainFire(p: Problem, chosen: seq<nat>): (r: Problem)
    requires p.settings.strategyEvery > 0
    ensures r.graph == p.graph && r.settings == p.settings && r.globalTime == p.globalTime
    ensures r.isActive == p.isActive && r.nodeData.burning == p.nodeData.burning
    ensures p.globalTime % p.settings.strategyEvery != 0 ==> r == p
    ensures p.globalTime % p.settings.strategyEvery == 0 ==>
              forall v :: IsDefended(r.nodeData, v) <==> IsDefended(p.nodeData, v) || v in chosen
    ensures p.globalTime % p.settings.strategyEvery == 0 ==>
              && (forall v :: v in chosen ==> IsDefended(r.nodeData, v) && r.nodeData.defended[v] == NodeData(v, p.globalTime))
              && (forall v :: IsDefended(p.nodeData, v) && v !in chosen ==>
                    IsDefended(r.nodeData, v) && r.nodeData.defended[v] == p.nodeData.defended[v])
  {
    if p.globalTime % p.settings.strategyEvery == 0 then
      p.(nodeData := MarkDefended(p.nodeData, chosen, p.globalTime))
    else p
  }

  /** An empty choice changes nothing. */
  lemma ContainNothing(p: Problem)
    requires p.settings.strategyEvery > 0
    ensures ContainFire(p, []) == p
  {
    if p.globalTime % p.settings.strategyEvery == 0 {
      assert Mark(p.nodeData.defended, [], p.globalTime) == p.nodeData.defended;
      assert MarkDefended(p.nodeData, [], p.globalTime) == p.nodeData;
    }
  }

  /** `exec_step`: the clock advances by one, then containment, then spread. */
  function ExecStep(p: Problem, chosen: seq<nat>): (r: Problem)
    requires Scannable(p.graph, p.nodeData) && p.settings.strategyEvery > 0
    ensures r.globalTime == p.globalTime + 1
    ensures r.graph == p.graph && r.settings == p.settings
  {
    SpreadFire(ContainFire(p.(globalTime := p.globalTime + 1), chosen))
  }

  /** A tick on which nothing is chosen is the spread alone. */
  lemma StepWithoutChoice(p: Problem)
    requires Scannable(p.graph, p.nodeData) && p.settings.strategyEvery > 0
    ensures ExecStep(p, []) == SpreadFire(p.(globalTime := p.globalTime + 1))
  {
    var q := p.(globalTime := p.globalTime + 1);
    ContainNothing(q);
    StepUnfolds(p, []);
  }

  /** A tick is containment on the advanced clock followed by the spread. */
  lemma StepUnfolds(p: Problem, chosen: seq<nat>)
    requires Scannable(p.graph, p.nodeData) && p.settings.strategyEvery > 0
    ensures ExecStep(p, chosen) == SpreadFire(ContainFire(p.(globalTime := p.globalTime + 1), chosen))
  {
  }

  /** What a strategy may choose at a tick: at most `num_ffs` nodes, none of
      them burning or defended yet. */
  predicate StrategyContract(p: Problem, chosen: seq<nat>) {
    && |chosen| <= p.settings.numFfs
    && forall i :: 0 <= i < |chosen| ==> IsUndefended(p.nodeData, chosen[i])
  }

  /** No node is both burning and defended. */
  ghost predicate Disjoint(s: Storage) {
    forall v :: !(IsBurning(s, v) && IsDefended(s, v))
  }

  /** A spread keeps the state well formed: the new records are filed under
      their ids, and their ids are targets of edges, hence nodes. */
  lemma SpreadKeepsWf(p: Problem)
    requires Wf(p)
    ensures Wf(SpreadFire(p))
  {
    SpreadFireEffect(p);
    var r := SpreadFire(p);
    forall k | k in r.nodeData.burning
      ensures r.nodeData.burning[k].nodeId == k && k < p.graph.numNodes
    {
      if k !in p.nodeData.burning {
        var b, e :| b in p.nodeData.burning && e in p.graph.edges && e.src == b && e.tgt == k
                    && p.globalTime >= p.nodeData.burning[b].time + e.dist;
        var i :| 0 <= i < |p.graph.edges| && p.graph.edges[i] == e;
      }
    }
  }

  /** Containment keeps the state well formed. */
  lemma ContainKeepsWf(p: Problem, chosen: seq<nat>)
    requires Wf(p)
    ensures Wf(ContainFire(p, chosen))
  {
    MarkKeepsKeysMatch(p.nodeData.defended, chosen, p.globalTime);
  }

  /** A step keeps the engine's state well formed. */
  lemma StepKeepsWf(p: Problem, chosen: seq<nat>)
    requires Wf(p)
    ensures Wf(ExecStep(p, chosen))
  {
    var q := p.(globalTime := p.globalTime + 1);
    assert Wf(q);
    ContainKeepsWf(q, chosen);
    var c := ContainFire(q, chosen);
    SpreadKeepsWf(c);
    assert ExecStep(p, chosen) == SpreadFire(c);
  }

  /** The spread never touches a defended node. */
  lemma SpreadKeepsDisjoint(p: Problem)
    requires Wf(p) && Disjoint(p.nodeData)
    ensures Disjoint(SpreadFire(p).nodeData)
  {
    SpreadFireEffect(p);
  }

  /** Containment of undefended nodes keeps the maps disjoint. */
  lemma ContainKeepsDisjoint(p: Problem, chosen: seq<nat>)
    requires p.settings.strategyEvery > 0 && Disjoint(p.nodeData)
    requires forall i :: 0 <= i < |chosen| ==> IsUndefended(p.nodeData, chosen[i])
    ensures Disjoint(ContainFire(p, chosen).nodeData)
  {
  }

  /** A defended node never catches fire: when the strategy respects its
      contract, a step keeps the two maps disjoint, and every node defended
      before the step is still defended and not burning. */
  lemma StepKeepsDisjoint(p: Problem, chosen: seq<nat>)
    requires Wf(p) && Disjoint(p.nodeData) && StrategyContract(p, chosen)
    ensures Disjoint(ExecStep(p, chosen).nodeData)
    ensures forall v :: IsDefended(p.nodeData, v) ==>
              IsDefended(ExecStep(p, chosen).nodeData, v) && !IsBurning(ExecStep(p, chosen).nodeData, v)
    ensures forall v :: IsDefended(p.nodeData, v) ==>
              ExecStep(p, chosen).nodeData.defended[v] == p.nodeData.defended[v]
  {
    var q := p.(globalTime := p.globalTime + 1);
    assert Wf(q);
    var c := ContainFire(q, chosen);
    ContainKeepsWf(q, chosen);
    ContainKeepsDisjoint(q, chosen);
    SpreadKeepsDisjoint(c);
    assert ExecStep(p, chosen) == SpreadFire(c);
    assert forall v :: IsDefended(p.nodeData, v) ==> IsDefended(c.nodeData, v);
  }

  /** After a spread at time `T`, no undefended out-neighbour of a burning
      node is overdue. */
  lemma SpreadSettles(p: Problem)
    requires Wf(p)
    ensures var r := SpreadFire(p);
      forall b, e :: b in p.nodeData.burning && e in p.graph.edges && e.src == b
                     && IsUndefended(r.nodeData, e.tgt)
                     ==> p.globalTime < p.nodeData.burning[b].time + e.dist
  {
    SpreadFireEffect(p);
  }

  /** After a step at time `T`, no undefended out-neighbour of a node that
      was burning before the step is overdue: `T < t_b + w`. For the roots
      (`t_b == 0`) this is the check at the end of the engine's test. */
  lemma StepSettles(p: Problem, chosen: seq<nat>)
    requires Wf(p)
    ensures var r := ExecStep(p, chosen);
      forall b, e :: b in p.nodeData.burning && e in p.graph.edges && e.src == b
                     && IsUndefended(r.nodeData, e.tgt)
                     ==> r.globalTime < p.nodeData.burning[b].time + e.dist
  {
    var q := p.(globalTime := p.globalTime + 1);
    assert Wf(q);
    ContainKeepsWf(q, chosen);
    var c := ContainFire(q, chosen);
    SpreadSettles(c);
    assert ExecStep(p, chosen) == SpreadFire(c);
  }

  /** A containment step keeps every burning record and every defended
      node, so a node undefended after it was undefended before it. */
  lemma ContainShrinksUndefended(p: Problem, chosen: seq<nat>)
    requires p.settings.strategyEvery > 0
    ensures var c := ContainFire(p, chosen);
      && c.nodeData.burning == p.nodeData.burning
      && (forall v :: IsDefended(p.nodeData, v) ==> IsDefended(c.nodeData, v))
      && (forall v :: IsUndefended(c.nodeData, v) ==> IsUndefended(p.nodeData, v))
  {
  }

  /** A step keeps every burning record and every defended node. */
  lemma StepKeepsFire(p: Problem, chosen: seq<nat>)
    requires Wf(p)
    ensures KeepsRecords(p.nodeData.burning, ExecStep(p, chosen).nodeData.burning)
    ensures p.nodeData.defended.Keys <= ExecStep(p, chosen).nodeData.defended.Keys
  {
    var q := p.(globalTime := p.globalTime + 1);
    assert Wf(q);
    ContainKeepsWf(q, chosen);
    ContainShrinksUndefended(q, chosen);
    var c := ContainFire(q, chosen);
    SpreadFireEffect(c);
    assert ExecStep(p, chosen) == SpreadFire(c);
  }

  /** Nothing ignites where nothing is exposed. */
  lemma UnexposedNoIgnition(g: Graph, s: Storage, now: nat, v: nat)
    requires !Exposed(g, s)
    ensures !Ignites(g, s, now, v)
  {
  }

  /** A spread that is exposed afterwards was exposed before: a burning
      source is either old or newly ignited, and an undefended target was
      undefended before. */
  lemma ExposedAfterSpread(p: Problem)
    requires Scannable(p.graph, p.nodeData) && KeysMatch(p.nodeData.burning)
    ensures Exposed(p.graph, SpreadFire(p).nodeData) ==> Exposed(p.graph, p.nodeData)
  {
    SpreadFireEffect(p);
    var r := SpreadFire(p);
    if Exposed(p.graph, r.nodeData) {
      var b, e :| b in r.nodeData.burning && e in p.graph.edges && e.src == b && IsUndefended(r.nodeData, e.tgt);
      assert IsBurning(r.nodeData, b);
      if IsBurning(p.nodeData, b) {
        assert IsUndefended(p.nodeData, e.tgt);
      } else {
        assert Ignites(p.graph, p.nodeData, p.globalTime, b);
      }
    }
  }

  /** When a step leaves the engine inactive, no burning node has an
      undefended out-neighbour afterwards: the scan found none before the
      marks, so nothing was marked. */
  lemma StopMeansSettled(p: Problem, chosen: seq<nat>)
    requires Wf(p)
    ensures !ExecStep(p, chosen).isActive ==> !Exposed(p.graph, ExecStep(p, chosen).nodeData)
  {
    var q := p.(globalTime := p.globalTime + 1);
    assert Wf(q);
    ContainKeepsWf(q, chosen);
    var c := ContainFire(q, chosen);
    SpreadFireEffect(c);
    ExposedAfterSpread(c);
    assert ExecStep(p, chosen) == SpreadFire(c);
  }

  /** Containment never exposes anything: it only defends more nodes. */
  lemma ContainKeepsUnexposed(p: Problem, chosen: seq<nat>)
    requires p.settings.strategyEvery > 0 && !Exposed(p.graph, p.nodeData)
    ensures !Exposed(p.graph, ContainFire(p, chosen).nodeData)
  {
    ContainShrinksUndefended(p, chosen);
  }

  /** An engine in which nothing is exposed stays stopped: containment only
      defends more nodes, so nothing becomes exposed, nothing ignites, and the
      fire is unchanged. */
  lemma SettledStaysStopped(p: Problem, chosen: seq<nat>)
    requires Wf(p) && !Exposed(p.graph, p.nodeData)
    ensures !ExecStep(p, chosen).isActive
    ensures ExecStep(p, chosen).nodeData.burning == p.nodeData.burning
  {
    var q := p.(globalTime := p.globalTime + 1);
    assert Wf(q);
    ContainKeepsWf(q, chosen);
    ContainKeepsUnexposed(q, chosen);
    var c := ContainFire(q, chosen);
    SpreadUnexposed(c);
    assert ExecStep(p, chosen) == SpreadFire(c);
  }

  /** A spread over a storage in which nothing is exposed burns nothing and
      reports the engine inactive. */
  lemma SpreadUnexposed(p: Problem)
    requires Scannable(p.graph, p.nodeData) && KeysMatch(p.nodeData.burning)
    requires !Exposed(p.graph, p.nodeData)
    ensures !SpreadFire(p).isActive && SpreadFire(p).nodeData.burning == p.nodeData.burning
  {
    SpreadFireEffect(p);
    SpreadKeepsBurning(p);
    NoIgnitionKeepsKeys(p);
    SameRecords(p.nodeData.burning, SpreadFire(p).nodeData.burning);
  }

  /** A spread keeps every burning record. */
  lemma SpreadKeepsBurning(p: Problem)
    requires Scannable(p.graph, p.nodeData) && KeysMatch(p.nodeData.burning)
    ensures KeepsRecords(p.nodeData.burning, SpreadFire(p).nodeData.burning)
  {
    SpreadFireEffect(p);
  }

  /** Over an unexposed storage a spread adds no burning node. */
  lemma NoIgnitionKeepsKeys(p: Problem)
    requires Scannable(p.graph, p.nodeData) && KeysMatch(p.nodeData.burning)
    requires !Exposed(p.graph, p.nodeData)
    ensures SpreadFire(p).nodeData.burning.Keys <= p.nodeData.burning.Keys
  {
    SpreadFireEffect(p);
    UnexposedNothingIgnites(p.graph, p.nodeData, p.globalTime);
  }

  /** Two record maps that keep each other's records are equal. */
  lemma SameRecords(m: Records, m2: Records)
    requires KeepsRecords(m, m2) && m2.Keys <= m.Keys
    ensures m2 == m
  {
  }

  lemma UnexposedNothingIgnites(g: Graph, s: Storage, now: nat)
    requires !Exposed(g, s)
    ensures forall v :: !Ignites(g, s, now, v)
  {
    forall v
      ensures !Ignites(g, s, now, v)
    {
      UnexposedNoIgnition(g, s, now, v);
    }
  }

  // ---------------------------------------------------------------------
  // Construction
  // ---------------------------------------------------------------------

  /** The loop of `gen_fire_roots`: draws are taken in order and kept when
      undefended in `s`, until `need` roots have been kept. */
  function GenFireRoots(s: Storage, draws: seq<nat>, need: nat): (roots: seq<nat>)
    ensures |roots| <= need
    ensures forall i :: 0 <= i < |roots| ==> roots[i] in draws && IsUndefended(s, roots[i])
  {
    if need == 0 || |draws| == 0 then []
    else if IsUndefended(s, draws[0]) then [draws[0]] + GenFireRoots(s, draws[1..], need - 1)
    else GenFireRoots(s, draws[1..], need)
  }

  /** Nothing is marked before the loop ends, so against the empty storage
      every draw passes the check: the roots are the first `need` draws,
      repetitions included. */
  lemma {:induction false} RootsAreFirstDraws(draws: seq<nat>, need: nat)
    requires need <= |draws|
    ensures GenFireRoots(Empty(), draws, need) == draws[..need]
  {
    if need > 0 {
      RootsAreFirstDraws(draws[1..], need - 1);
      assert draws[..need] == [draws[0]] + draws[1..][..need - 1];
    }
  }

  /** `OSMFProblem::new` with the random draws given: panics when more roots
      are wanted than the graph has nodes; otherwise the roots burn at time 0
      and the engine is active. */
  function New(g: Graph, settings: Settings, draws: seq<nat>): (r: Result<Problem, NewError>)
    requires settings.numRoots <= g.numNodes ==> settings.numRoots <= |draws|
    requires forall i :: 0 <= i < |draws| ==> draws[i] < g.numNodes
    ensures r.Err? <==> settings.numRoots > g.numNodes
    ensures r.Ok? ==> r.value.graph == g && r.value.settings == settings
    ensures r.Ok? ==> r.value.globalTime == 0 && r.value.isActive && r.value.nodeData.defended == map[]
  {
    if settings.numRoots > g.numNodes then Err(TooManyRoots)
    else
      var roots := GenFireRoots(Empty(), draws, settings.numRoots);
      Ok(Problem(g, settings, MarkBurning(Empty(), roots, 0), 0, true))
  }

  /** After construction every burning record is a root with an id of the
      graph, there are at most `num_roots` of them, and exactly `num_roots`
      precisely when the draws used were all different. */
  lemma NewRoots(g: Graph, settings: Settings, draws: seq<nat>)
    requires settings.numRoots <= g.numNodes ==> settings.numRoots <= |draws|
    requires forall i :: 0 <= i < |draws| ==> draws[i] < g.numNodes
    requires New(g, settings, draws).Ok?
    ensures var s := New(g, settings, draws).value.nodeData;
      && KeysMatch(s.burning)
      && (forall v :: v in s.burning ==> IsRoot(s, v) && v < g.numNodes)
      && |s.burning| <= settings.numRoots
      && (|s.burning| == settings.numRoots <==> Distinct(draws[..settings.numRoots]))
  {
    var roots := draws[..settings.numRoots];
    RootsAreFirstDraws(draws, settings.numRoots);
    var s := New(g, settings, draws).value.nodeData;
    assert s.burning == Mark(map[], roots, 0);
    assert s.burning.Keys == Members(roots);
    MembersCardinality(roots);
  }

  // ---------------------------------------------------------------------
  // Simulation and step metadata
  // ---------------------------------------------------------------------

  /** `simulate`: steps while the engine is active. The strategy is a
      function of the storage and the tick; `fuel` bounds the number of
      steps. */
  function Simulate(p: Problem, strategy: (Storage, nat) -> seq<nat>, fuel: nat): (r: Problem)
    requires Wf(p)
    ensures Wf(r) && r.graph == p.graph && r.settings == p.settings
    ensures !p.isActive || fuel == 0 ==> r == p
    ensures r.globalTime >= p.globalTime
    ensures r.isActive ==> r.globalTime == p.globalTime + fuel
    ensures p.isActive && !r.isActive ==> !Exposed(r.graph, r.nodeData)
    ensures KeepsRecords(p.nodeData.burning, r.nodeData.burning)
    ensures p.nodeData.defended.Keys <= r.nodeData.defended.Keys
    ensures p.isActive && fuel > 0 ==> NoneOverdue(p.graph, p.nodeData.burning, r.nodeData, r.globalTime)
    decreases fuel
  {
    if !p.isActive || fuel == 0 then p
    else
      var chosen := strategy(p.nodeData, p.globalTime + 1);
      StepGives(p, chosen);
      var q := ExecStep(p, chosen);
      var r := Simulate(q, strategy, fuel - 1);
      ComposeRun(p, q, r, fuel);
      r
  }

  /** What `simulate` promises of a run of at most `fuel` steps from `p` to `r`. */
  ghost predicate RunFacts(p: Problem, r: Problem, fuel: nat) {
    && Wf(r) && r.graph == p.graph && r.settings == p.settings
    && (!p.isActive || fuel == 0 ==> r == p)
    && r.globalTime >= p.globalTime
    && (r.isActive ==> r.globalTime == p.globalTime + fuel)
    && (p.isActive && !r.isActive ==> !Exposed(r.graph, r.nodeData))
    && KeepsRecords(p.nodeData.burning, r.nodeData.burning)
    && p.nodeData.defended.Keys <= r.nodeData.defended.Keys
    && (p.isActive && fuel > 0 ==> NoneOverdue(p.graph, p.nodeData.burning, r.nodeData, r.globalTime))
  }

  /** What one step from `p` to `q` gives. */
  ghost predicate StepFacts(p: Problem, q: Problem) {
    && Wf(q) && q.graph == p.graph && q.settings == p.settings
    && q.globalTime == p.globalTime + 1
    && (!q.isActive ==> !Exposed(q.graph, q.nodeData))
    && KeepsRecords(p.nodeData.burning, q.nodeData.burning)
    && p.nodeData.defended.Keys <= q.nodeData.defended.Keys
    && NoneOverdue(p.graph, p.nodeData.burning, q.nodeData, q.globalTime)
  }

  lemma StepGives(p: Problem, chosen: seq<nat>)
    requires Wf(p)
    ensures StepFacts(p, ExecStep(p, chosen))
  {
    var q := ExecStep(p, chosen);
    StepKeepsWf(p, chosen);
    StopMeansSettled(p, chosen);
    StepKeepsFire(p, chosen);
    StepSettles(p, chosen);
    assert NoneOverdue(p.graph, p.nodeData.burning, q.nodeData, q.globalTime);
  }

  /** A step followed by a run is a run one step longer. */
  lemma ComposeRun(p: Problem, q: Problem, r: Problem, fuel: nat)
    requires p.isActive && fuel > 0
    requires StepFacts(p, q) && RunFacts(q, r, fuel - 1)
    ensures RunFacts(p, r, fuel)
  {
    if q.isActive && fuel > 1 {
      OverdueCarries(p.graph, p.nodeData.burning, q.nodeData.burning, r.nodeData, r.globalTime);
    }
  }

  /** No edge from a node of `fire` to a node undefended in `s` is due by
      `now`: each such edge still needs more time than has passed. */
  ghost predicate NoneOverdue(g: Graph, fire: Records, s: Storage, now: nat) {
    forall b, e :: b in fire && e in g.edges && e.src == b && IsUndefended(s, e.tgt)
                   ==> now < fire[b].time + e.dist
  }

  /** Every record of `m` is in `m2`, unchanged. */
  predicate KeepsRecords(m: Records, m2: Records) {
    forall v :: v in m ==> v in m2 && m2[v] == m[v]
  }

  /** Records kept with their times keep what is not overdue. */
  lemma OverdueCarries(g: Graph, fire: Records, later: Records, s: Storage, now: nat)
    requires KeepsRecords(fire, later)
    requires NoneOverdue(g, later, s, now)
    ensures NoneOverdue(g, fire, s, now)
  {
  }

  datatype StepMetadata = StepMetadata(nodesBurnedBy: nat, nodesDefendedBy: nat,
                                       nodesBurnedAt: seq<nat>, nodesDefendedAt: seq<nat>)

  /** `sim_step_metadata_response`. */
  function Metadata(p: Problem, t: nat): StepMetadata {
    var s := p.nodeData;
    StepMetadata(CountBurningBy(s, t), CountDefendedBy(s, t), BurningAt(s, t), DefendedAt(s, t))
  }

  /** The metadata of time `t` counts the nodes burning and defended by `t`
      and lists exactly the nodes that caught fire or were defended at `t`. */
  lemma MetadataMeaning(p: Problem, t: nat)
    requires KeysMatch(p.nodeData.burning) && KeysMatch(p.nodeData.defended)
    ensures var md := Metadata(p, t); var s := p.nodeData;
      && md.nodesBurnedBy == |set v | v in s.burning && IsBurningBy(s, v, t)|
      && md.nodesDefendedBy == |set v | v in s.defended && IsDefendedBy(s, v, t)|
      && (forall v :: v in md.nodesBurnedAt <==> IsBurning(s, v) && s.burning[v].time == t)
      && (forall v :: v in md.nodesDefendedAt <==> IsDefended(s, v) && s.defended[v].time == t)
  {
    var s := p.nodeData;
    MetadataCounts(s, t);
    IdsAtExact(s.burning, t);
    IdsAtExact(s.defended, t);
  }

  lemma MetadataCounts(s: Storage, t: nat)
    ensures CountBurningBy(s, t) == |set v | v in s.burning && IsBurningBy(s, v, t)|
    ensures CountDefendedBy(s, t) == |set v | v in s.defended && IsDefendedBy(s, v, t)|
  {
    CountByIsCardinality(s.burning, t);
    CountByIsCardinality(s.defended, t);
    assert (set v | v in s.burning && IsBurningBy(s, v, t)) == KeysBy(s.burning, t);
    assert (set v | v in s.defended && IsDefendedBy(s, v, t)) == KeysBy(s.defended, t);
  }
}

/** A worked example of the weighted engine: a graph whose only edge runs
    from node 0 to node 1 with weight 0, and node 0 burning from time 0. */
module WeightedExample {

  import opened GraphStore
  import opened NodeStore
  import opened WeightedEngine

  predicate OneEdge(g: Graph) {
    ValidGraph(g) && g.edges == [Edge(0, 1, 0)]
  }

  function RootOnly(): Storage {
    Storage(map[0 := NodeData(0, 0)], map[])
  }

  /** With node 0 burning alone, its edge to node 1 is exposed and, having
      weight 0, carries the fire at once. */
  lemma OneEdgeIgnites(g: Graph, now: nat)
    requires OneEdge(g)
    ensures Exposed(g, RootOnly()) && Ignites(g, RootOnly(), now, 1)
  {
    var e := Edge(0, 1, 0);
    assert e in g.edges && 0 in RootOnly().burning && IsUndefended(RootOnly(), 1);
  }

  /** Once node 1 burns, no edge is exposed. */
  lemma OneEdgeSettled(g: Graph, s: Storage)
    requires OneEdge(g) && IsBurning(s, 1)
    ensures !Exposed(g, s)
  {
    assert forall f :: f in g.edges ==> f == Edge(0, 1, 0);
  }

  /** The spread of a tick that starts with node 0 burning alone. */
  lemma OneEdgeSpread(c: Problem)
    requires OneEdge(c.graph) && c.nodeData == RootOnly()
    ensures var r := SpreadFire(c);
      r.isActive && !Exposed(c.graph, r.nodeData) && IsBurning(r.nodeData, 1)
  {
    OneEdgeIgnites(c.graph, c.globalTime);
    SpreadFireEffect(c);
    OneEdgeSettled(c.graph, SpreadFire(c).nodeData);
  }

  /** `is_active` is judged before the tick's marks: a step can report an
      active engine although nothing is left to burn. No strategy acts. */
  lemma ActiveOneTickLate(p: Problem)
    requires OneEdge(p.graph) && p.settings.strategyEvery > 0 && p.nodeData == RootOnly()
    ensures ExecStep(p, []).isActive
    ensures IsBurning(ExecStep(p, []).nodeData, 1)
    ensures !Exposed(p.graph, ExecStep(p, []).nodeData)
  {
    StepWithoutChoice(p);
    OneEdgeSpread(p.(globalTime := p.globalTime + 1));
  }
}
