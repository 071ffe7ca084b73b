/** Per-node state of the time-weighted engine (`NodeDataStorage` of
    `backend/src/firefighter/problem.rs`): two ordered maps from node id to a
    record carrying the id and the time the node caught fire or was
    defended. Both maps are Rust `BTreeMap`s, so their values are visited in
    ascending key order. Times are unbounded naturals (the source's `u64`). */
module NodeStore {

  import opened SortedSets

  datatype NodeData = NodeData(nodeId: nat, time: nat)

  /** One of the two maps of the storage. */
  type Records = map<nat, NodeData>

  datatype Storage = Storage(burning: Records, defended: Records)

  /** Every record is filed under its own id. */
  predicate KeysMatch(m: Records) {
    forall k :: k in m ==> m[k].nodeId == k
  }

  /** `NodeDataStorage::new`. */
  function Empty(): (s: Storage)
    ensures s.burning == map[] && s.defended == map[]
  {
    Storage(map[], map[])
  }

  // ---------------------------------------------------------------------
  // Queries on one map
  // ---------------------------------------------------------------------

  /** `v` has a record no later than `t` (`is_burning_by`, `is_defended_by`). */
  predicate HasBy(m: Records, v: nat, t: nat) {
    v in m && m[v].time <= t
  }

  /** The records of `m` for the keys `ks`, in that order. */
  function RecordsOf(m: Records, ks: seq<nat>): (r: seq<NodeData>)
    requires forall i :: 0 <= i < |ks| ==> ks[i] in m
    ensures |r| == |ks|
    ensures forall i :: 0 <= i < |ks| ==> r[i] == m[ks[i]]
  {
    if |ks| == 0 then [] else RecordsOf(m, ks[..|ks| - 1]) + [m[ks[|ks| - 1]]]
  }

  /** The values of `m` in ascending key order (`BTreeMap::values`,
      `get_burning`). */
  function Values(m: Records): (r: seq<NodeData>)
    ensures |r| == |m|
    ensures forall x :: x in r <==> exists k :: k in m && m[k] == x
  {
    var ks := Ascending(m.Keys);
    var r := RecordsOf(m, ks);
    assert forall x :: x in r ==> exists k :: k in m && m[k] == x by {
      forall x | x in r
        ensures exists k :: k in m && m[k] == x
      {
        var i :| 0 <= i < |r| && r[i] == x;
        assert ks[i] in m;
      }
    }
    assert forall k :: k in m ==> m[k] in r by {
      forall k | k in m
        ensures m[k] in r
      {
        var i :| 0 <= i < |ks| && ks[i] == k;
        assert r[i] == m[k];
      }
    }
    r
  }

  /** How many records have a time no later than `t`. */
  function CountUpTo(rs: seq<NodeData>, t: nat): (c: nat)
    ensures c <= |rs|
  {
    if |rs| == 0 then 0
    else CountUpTo(rs[..|rs| - 1], t) + (if rs[|rs| - 1].time <= t then 1 else 0)
  }

  /** The ids of the records whose time is exactly `t`, in order. */
  function IdsAtTime(rs: seq<NodeData>, t: nat): seq<nat> {
    if |rs| == 0 then []
    else IdsAtTime(rs[..|rs| - 1], t) + (if rs[|rs| - 1].time == t then [rs[|rs| - 1].nodeId] else [])
  }

  /** `count_burning_by` / `count_defended_by`. */
  function CountBy(m: Records, t: nat): nat {
    CountUpTo(Values(m), t)
  }

  /** `get_burning_at` / `get_defended_at`. */
  function IdsAt(m: Records, t: nat): seq<nat> {
    IdsAtTime(Values(m), t)
  }

  /** The keys whose record is no later than `t`. */
  function KeysBy(m: Records, t: nat): set<nat> {
    set k | k in m && m[k].time <= t
  }

  // ---------------------------------------------------------------------
  // Counting records
  // ---------------------------------------------------------------------

  /** The keys among `ks` whose record is no later than `t`. */
  function ChosenKeys(m: Records, ks: seq<nat>, t: nat): set<nat> {
    set k | k in ks && k in m && m[k].time <= t
  }

  /** Dropping the last key of `ks` drops at most that key from the chosen ones. */
  lemma ChosenSnoc(m: Records, pre: seq<nat>, x: nat, t: nat)
    requires x in m
    ensures ChosenKeys(m, pre + [x], t) == ChosenKeys(m, pre, t) + (if m[x].time <= t then {x} else {})
  {
    var ks := pre + [x];
    assert forall k :: k in ks <==> k in pre || k == x;
  }

  /** Counting the records of distinct keys counts the set of those keys. */
  lemma {:induction false} CountDistinct(m: Records, ks: seq<nat>, t: nat)
    requires forall i :: 0 <= i < |ks| ==> ks[i] in m
    requires Distinct(ks)
    ensures CountUpTo(RecordsOf(m, ks), t) == |ChosenKeys(m, ks, t)|
  {
    if |ks| > 0 {
      var pre, x := ks[..|ks| - 1], ks[|ks| - 1];
      assert ks == pre + [x];
      CountDistinct(m, pre, t);
      var rs := RecordsOf(m, ks);
      assert rs[..|rs| - 1] == RecordsOf(m, pre);
      LastNotEarlier(ks);
      ChosenSnoc(m, pre, x, t);
    }
  }

  /** `count_*_by(t)` is the number of records with time no later than `t`,
      and so never more than the size of the map. */
  lemma CountByIsCardinality(m: Records, t: nat)
    ensures CountBy(m, t) == |KeysBy(m, t)|
    ensures CountBy(m, t) <= |m|
  {
    var ks := Ascending(m.Keys);
    KeyOrder(m);
    CountDistinct(m, ks, t);
    ChosenAll(m, ks, t);
    assert KeysBy(m, t) <= m.Keys;
  }

  /** The ascending keys of `m` are keys of `m`, each once, and `Values`
      lists their records. */
  lemma KeyOrder(m: Records)
    ensures var ks := Ascending(m.Keys);
      && (forall i :: 0 <= i < |ks| ==> ks[i] in m)
      && Distinct(ks)
      && (forall k :: k in ks <==> k in m)
      && Values(m) == RecordsOf(m, ks)
  {
    var ks := Ascending(m.Keys);
    assert forall i :: 0 <= i < |ks| ==> ks[i] in ks;
  }

  /** With every key of `m` listed, the chosen keys are all keys no later
      than `t`. */
  lemma ChosenAll(m: Records, ks: seq<nat>, t: nat)
    requires forall k :: k in ks <==> k in m
    ensures ChosenKeys(m, ks, t) == KeysBy(m, t)
  {
  }

  /** Each step of time adds exactly the records of that time. */
  lemma {:induction false} CountStep(rs: seq<NodeData>, t: nat)
    ensures CountUpTo(rs, t + 1) == CountUpTo(rs, t) + |IdsAtTime(rs, t + 1)|
  {
    if |rs| > 0 {
      CountStep(rs[..|rs| - 1], t);
    }
  }

  /** At time 0 the count is the number of records of time 0. */
  lemma {:induction false} CountZero(rs: seq<NodeData>)
    ensures CountUpTo(rs, 0) == |IdsAtTime(rs, 0)|
  {
    if |rs| > 0 {
      CountZero(rs[..|rs| - 1]);
    }
  }

  /** The running count by `t + 1` is the count by `t` plus the ids of `t + 1`. */
  lemma CountByStep(m: Records, t: nat)
    ensures CountBy(m, t + 1) == CountBy(m, t) + |IdsAt(m, t + 1)|
    ensures CountBy(m, 0) == |IdsAt(m, 0)|
  {
    CountStep(Values(m), t);
    CountZero(Values(m));
  }

  /** The ids listed for time `t` are exactly those of the records of time
      `t`, in the order of the records. */
  lemma {:induction false} IdsAtTimeExact(rs: seq<NodeData>, t: nat)
    ensures forall v :: v in IdsAtTime(rs, t) <==> exists i :: 0 <= i < |rs| && rs[i].time == t && rs[i].nodeId == v
  {
    if |rs| > 0 {
      var pre := rs[..|rs| - 1];
      IdsAtTimeExact(pre, t);
      forall v
        ensures v in IdsAtTime(rs, t) <==> exists i :: 0 <= i < |rs| && rs[i].time == t && rs[i].nodeId == v
      {
        if v in IdsAtTime(rs, t) && v !in IdsAtTime(pre, t) {
          assert rs[|rs| - 1].time == t && rs[|rs| - 1].nodeId == v;
        }
        if exists i :: 0 <= i < |rs| && rs[i].time == t && rs[i].nodeId == v {
          var i :| 0 <= i < |rs| && rs[i].time == t && rs[i].nodeId == v;
          if i < |pre| {
            assert pre[i] == rs[i];
          }
        }
      }
    }
  }

  /** In a map whose records carry their keys, `get_*_at(t)` lists exactly
      the nodes whose record has time `t`. */
  lemma IdsAtExact(m: Records, t: nat)
    requires KeysMatch(m)
    ensures forall v :: v in IdsAt(m, t) <==> v in m && m[v].time == t
  {
    var rs := Values(m);
    IdsAtTimeExact(rs, t);
    forall v | v in m && m[v].time == t
      ensures v in IdsAt(m, t)
    {
      assert m[v] in rs;
      var i :| 0 <= i < |rs| && rs[i] == m[v];
    }
  }

  // ---------------------------------------------------------------------
  // Marking
  // ---------------------------------------------------------------------

  /** The loop of `mark_burning` / `mark_defended`: each listed node gets a
      record with time `t`, inserted in list order. */
  function Mark(m: Records, nodes: seq<nat>, t: nat): (r: Records)
    ensures forall v :: v in r <==> v in m || v in nodes
    ensures forall v :: v in nodes ==> r[v] == NodeData(v, t)
    ensures forall v :: v in m && v !in nodes ==> r[v] == m[v]
    decreases |nodes|
  {
    if |nodes| == 0 then m
    else
      var r := Mark(m[nodes[0] := NodeData(nodes[0], t)], nodes[1..], t);
      assert forall v :: v in nodes <==> v == nodes[0] || v in nodes[1..] by {
        assert nodes == [nodes[0]] + nodes[1..];
      }
      r
  }

  /** Marking is the map update with one fresh record per listed node; it
      depends only on the set of listed nodes, so a node listed twice is
      marked once. */
  lemma MarkIsUpdate(m: Records, nodes: seq<nat>, t: nat)
    ensures Mark(m, nodes, t) == m + map v | v in nodes :: NodeData(v, t)
  {
    var r := Mark(m, nodes, t);
    var u := m + map v | v in nodes :: NodeData(v, t);
    assert r.Keys == u.Keys;
    assert forall v :: v in r ==> r[v] == u[v];
  }

  /** Two lists with the same members mark the same records. */
  lemma MarkSameMembers(m: Records, nodes: seq<nat>, nodes': seq<nat>, t: nat)
    requires forall v :: v in nodes <==> v in nodes'
    ensures Mark(m, nodes, t) == Mark(m, nodes', t)
  {
    MarkIsUpdate(m, nodes, t);
    MarkIsUpdate(m, nodes', t);
    assert (map v | v in nodes :: NodeData(v, t)) == (map v | v in nodes' :: NodeData(v, t));
  }

  /** Marking keeps every record filed under its own id. */
  lemma MarkKeepsKeysMatch(m: Records, nodes: seq<nat>, t: nat)
    requires KeysMatch(m)
    ensures KeysMatch(Mark(m, nodes, t))
  {
  }

  // ---------------------------------------------------------------------
  // The storage
  // ---------------------------------------------------------------------

  predicate IsBurning(s: Storage, v: nat) {
    v in s.burning
  }

  predicate IsDefended(s: Storage, v: nat) {
    v in s.defended
  }

  predicate IsBurningBy(s: Storage, v: nat, t: nat) {
    HasBy(s.burning, v, t)
  }

  predicate IsDefendedBy(s: Storage, v: nat, t: nat) {
    HasBy(s.defended, v, t)
  }

  /** `is_root`: `v` caught fire at time 0. */
  predicate IsRoot(s: Storage, v: nat) {
    v in s.burning && s.burning[v].time == 0
  }

  /** `is_undefended`: neither burning nor defended. */
  predicate IsUndefended(s: Storage, v: nat) {
    !(IsBurning(s, v) || IsDefended(s, v))
  }

  function CountBurningBy(s: Storage, t: nat): nat {
    CountBy(s.burning, t)
  }

  function CountDefendedBy(s: Storage, t: nat): nat {
    CountBy(s.defended, t)
  }

  function BurningAt(s: Storage, t: nat): seq<nat> {
    IdsAt(s.burning, t)
  }

  function DefendedAt(s: Storage, t: nat): seq<nat> {
    IdsAt(s.defended, t)
  }

  /** `mark_burning`: the defended map is untouched. */
  function MarkBurning(s: Storage, nodes: seq<nat>, t: nat): (r: Storage)
    ensures r.defended == s.defended
    ensures forall v :: IsBurning(r, v) <==> IsBurning(s, v) || v in nodes
  {
    s.(burning := Mark(s.burning, nodes, t))
  }

  /** `mark_defended`: the burning map is untouched. */
  function MarkDefended(s: Storage, nodes: seq<nat>, t: nat): (r: Storage)
    ensures r.burning == s.burning
    ensures forall v :: IsDefended(r, v) <==> IsDefended(s, v) || v in nodes
  {
    s.(defended := Mark(s.defended, nodes, t))
  }

  /** A node is undefended exactly when it is neither burning nor defended
      by any time. */
  lemma UndefendedNeverBy(s: Storage, v: nat)
    ensures IsUndefended(s, v) <==> forall t :: !IsBurningBy(s, v, t) && !IsDefendedBy(s, v, t)
  {
    if !IsUndefended(s, v) {
      if IsBurning(s, v) {
        assert IsBurningBy(s, v, s.burning[v].time);
      } else {
        assert IsDefendedBy(s, v, s.defended[v].time);
      }
    }
  }

  /** Burning or defended by `t` stays so at every later time. */
  lemma ByMonotone(s: Storage, v: nat, t: nat, t': nat)
    requires t <= t'
    ensures IsBurningBy(s, v, t) ==> IsBurningBy(s, v, t')
    ensures IsDefendedBy(s, v, t) ==> IsDefendedBy(s, v, t')
  {
  }

  /** A root is a node burning by time 0. */
  lemma RootIsBurningAtZero(s: Storage, v: nat)
    ensures IsRoot(s, v) <==> IsBurningBy(s, v, 0)
  {
  }
}
