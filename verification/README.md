# OSM-Firefighter core in Dafny

This project models the simulation core of OSM-Firefighter. OSM-Firefighter
runs the firefighter problem on road graphs taken from OpenStreetMap: fire
starts at random roots and spreads along directed, weighted edges, while a
containment strategy defends nodes. Three parts are modelled.

- **The graph** (`backend/src/graph.rs`): reading a graph file into node and
  edge tables, the offsets table that gives each node its slice of the edge
  array, out-degrees, and one-to-all Dijkstra.
  - `GraphStore` holds the offsets construction and degrees.
  - `GraphFile` holds the file reader.
  - `ShortestPaths` holds Dijkstra.
  - `Lexing` holds the token splitting and integer parsing the reader relies on.
- **The weighted engine** (`backend/src/firefighter/problem.rs`).
  - `NodeStore` models `NodeDataStorage`: the two ordered maps of burning and
    defended nodes, with their time queries and mutators.
  - `WeightedEngine` models `OSMFProblem`:
    - root generation;
    - `spread_fire`, where fire crosses an edge once the global time reaches
      the source's ignition time plus the edge weight;
    - `contain_fire`, which is gated by `strategy_every`;
    - `exec_step`, `simulate` and the per-step metadata.
  - `WeightedExample` is a worked one-edge example.
- **The early unweighted engine** (`backend/src/firefighter.rs`), as
  `UnweightedEngine`. It has one map of node states and an error for a second
  attachment to the same node. A change tracker files the nodes changed at each
  tick. Fire crosses every edge in one tick.

`Wrappers` (Option/Result) and `SortedSets` (ascending enumeration of a set of
naturals, distinctness, member counts) are supporting modules.

Some conventions hold across the model:

- Panics in the source appear as explicit error values. For example, the
  reader returns `Panicked(EofInHeader)` where the source calls `expect`.
- Randomness appears as an input sequence of draws.
- Hash-map iteration order is fixed to ascending keys.

Two behaviours of the weighted engine are easy to misread in the code, and
the model states them as the code has them:

- The weighted root generator can draw the same node twice
  (`backend/src/firefighter/problem.rs:218-225`). It checks `is_undefended`
  against the storage, and the storage is only updated after the loop. The
  construction test at line 375 expects `burning.len() == num_roots`. That
  holds exactly when the draws used are distinct (`WeightedEngine.NewRoots`).
- `spread_fire` sets `is_active` during its scan, before the tick's new fires
  are marked (`backend/src/firefighter/problem.rs:243-265`). A step that burns
  the last undefended neighbours therefore still reports an active engine. The
  next step finds nothing and stops, so termination shows one tick late
  (`WeightedExample.ActiveOneTickLate`).

## Model

| member | source | states |
|---|---|---|
| Lexing.JoinSplit | backend/src/graph.rs:151-154 | splitting a line on a space loses nothing: joining the pieces back with the separator gives the original line |
| Lexing.SplitJoin | backend/src/graph.rs:177-192 | splitting a space-joined list of separator-free tokens gives back exactly that list of tokens |
| Lexing.ParseUsize | backend/src/graph.rs:139-144 | an unsigned integer parse succeeds exactly when the text is an optional `+` followed by at least one decimal digit and the value fits in `usize`; the result is the value of those digits |
| Lexing.ParseRendered | backend/src/graph.rs:139-144 | the decimal rendering of any `usize` parses back to the same number |
| GraphFile.SkipHeader | backend/src/graph.rs:129-137 | the header loop fails with the header EOF panic exactly when every remaining line is a comment; otherwise it fails only with an I/O error; a read failure on the first line is that error and a first line that is not a comment is consumed at once; a success stops just past a line that was read and is not a comment, with only comments before it |
| GraphFile.HeaderOutcome | backend/src/graph.rs:129-137 | wherever the loop meets its first line that is not a read comment, it returns an I/O error if that line is a read failure and otherwise succeeds just past it |
| GraphFile.HeaderEndExists | backend/src/graph.rs:129-137 | unless every remaining line is a comment, such a first stopping line exists, so the EOF panic, the I/O error and success cover every input |
| GraphFile.ReadCount | backend/src/graph.rs:139-144 | a count is read from the next line: it succeeds with the line's value exactly when the line is there and parses as a `usize`; an unparsable line is a parse error, a failed read an I/O error, and a missing line the given EOF panic |
| GraphFile.ParseNodeLine | backend/src/graph.rs:149-166 | a node line parses exactly when it has at least four space-separated tokens whose third and fourth are float literals; the node takes the running index as id, not the ids written in the line |
| GraphFile.ParseEdgeLine | backend/src/graph.rs:180-193 | an edge line parses exactly when its first three tokens are unsigned integers, which become source, target and weight |
| GraphFile.ParseNodes | backend/src/graph.rs:147-168 | the node loop succeeds exactly when the first `count` lines are all present and each parses as the node of its position; on success node `i` is the parse of line `i`, so the nodes are numbered 0 to `count - 1` |
| GraphFile.ParseEdges | backend/src/graph.rs:172-204 | the edge loop succeeds exactly when the first `count` lines are all present, each parses as an edge, and no source reaches past the offsets table; on success edge `j` is the parse of line `j` |
| GraphFile.ParseGraph | backend/src/graph.rs:122-208 | with `h` the first line after the header: parsing succeeds exactly when the two count lines at `h` and `h + 1` and the node and edge lines after them all parse; then the counts are the values of those two lines, node `i` is the parse of line `h + 2 + i`, edge `j` the parse of line `h + 2 + num_nodes + j`, and the offsets are the table the offsets loop builds from the edge sources; a file that cannot be opened is an I/O error |
| GraphFile.FromFile | backend/src/graph.rs:211-219 | construction from a file fails (the source panics) exactly when parsing fails, and otherwise yields the parsed graph |
| GraphFile.ParsedGraphValid | backend/src/graph.rs:170-205 | when the edge lines are sorted by source and the last node has an outgoing edge (or there are no edges), the parsed offsets form a valid slice table for the edges |
| GraphFile.RenderParseRoundTrip | backend/src/graph.rs:122-208 | writing comments, counts, node lines and edge lines in the file format and parsing the result gives back the same nodes and edges |
| GraphStore.BuildOffsets | backend/src/graph.rs:170-205 | the offsets loop panics exactly when some edge source, read as a signed 64-bit value, is beyond the node count; otherwise it produces the declarative table in which node `j` starts at the first edge whose source reaches `j` (entries no edge reaches keep 0) |
| GraphStore.SortedTableIsCsr | backend/src/graph.rs:195-205 | for edges sorted by source, the table is non-decreasing and node `v`'s slice holds exactly the edges whose source is `v` |
| GraphStore.AsWrittenOffsetsValid | backend/src/graph.rs:170-205 | the table built by the loop is a valid slice table when the sources are sorted and either there are no edges or the last node has an outgoing edge |
| GraphStore.TrailingSinkCounterexample | backend/src/graph.rs:173-205 | three nodes, edges from sources 0 and 1: the loop leaves the entry of node 2 at 0, the table is not a valid slice table, the degree of node 1 underflows, and node 2, which has no edges, gets the slice `0..2` holding both edges of nodes 0 and 1, so its degree is 2 |
| GraphStore.FilledOffsetsValid | backend/src/graph.rs:170-205 | the corrected table is a valid slice table for every sorted edge list, trailing sinks included |
| GraphStore.FilledAgreesWhenLastNodeHasEdges | backend/src/graph.rs:195-205 | the corrected table equals the loop's table whenever the last node has an outgoing edge |
| GraphStore.Degree | backend/src/graph.rs:222-224 | the degree is the difference of consecutive offsets; it is undefined exactly when `node_id + 1` is past the table (an index panic) or the table decreases at that node (an unsigned underflow) |
| GraphStore.DegreeCountsOutEdges | backend/src/graph.rs:222-224 | on a valid graph the degree of `v` is the number of edges whose source is `v` |
| GraphStore.OutEdgesExact | backend/src/graph.rs:237-238 | on a valid graph the slice `offsets[u]..offsets[u+1]` contains exactly the edges of the graph whose source is `u` |
| ShortestPaths.PopMin | backend/src/graph.rs:234-235 | popping the queue removes one element whose distance is no larger than that of any other queued node |
| ShortestPaths.RelaxEdge | backend/src/graph.rs:238-249 | after relaxing an edge its target's distance is at most the source's distance plus the weight, distances only decrease, the queue only grows, and settled nodes keep their distance |
| ShortestPaths.RelaxOutEdges | backend/src/graph.rs:237-250 | relaxing all out-edges of the popped node keeps the loop invariant: every finite distance is witnessed by a path, and every edge out of a settled node is relaxed |
| ShortestPaths.PathBound | backend/src/graph.rs:227-251 | when no edge can improve the distances and the source is at 0, every path from the source to `v` is at least as heavy as `dist[v]` |
| ShortestPaths.RunDijkstra | backend/src/graph.rs:227-254 | the result has one entry per node with the source at 0; no edge can improve it; it is a lower bound on every path's weight; and every finite entry is the weight of an actual path, so the entries are shortest-path distances (unreachable nodes stay at `usize::MAX`) |
| NodeStore.Values | backend/src/firefighter/problem.rs:130-133 | the burning records listed are exactly the values of the map, one per key |
| NodeStore.CountByIsCardinality | backend/src/firefighter/problem.rs:68-73 | the count by time `t` is the number of distinct nodes recorded at or before `t`, never more than the map's size |
| NodeStore.CountByStep | backend/src/firefighter/problem.rs:136-141 | the count by `t + 1` is the count by `t` plus the number of nodes recorded exactly at `t + 1`, and the count by 0 is the number recorded at 0 |
| NodeStore.IdsAtExact | backend/src/firefighter/problem.rs:136-149 | the ids listed for time `t` are exactly the nodes recorded at time `t` |
| NodeStore.Mark | backend/src/firefighter/problem.rs:101-118 | after marking, the map holds the old keys and the listed nodes; every listed node has a record for the new time; other records are unchanged |
| NodeStore.MarkIsUpdate | backend/src/firefighter/problem.rs:101-108 | marking a list equals a single map update with a record for each listed node |
| NodeStore.MarkSameMembers | backend/src/firefighter/problem.rs:101-118 | marking depends only on which nodes are listed, not on their order or repetitions |
| NodeStore.MarkBurning | backend/src/firefighter/problem.rs:100-108 | after marking nodes burning, a node is burning exactly when it was before or is listed; the defended map is untouched |
| NodeStore.MarkDefended | backend/src/firefighter/problem.rs:110-118 | after marking nodes defended, a node is defended exactly when it was before or is listed; the burning map is untouched |
| NodeStore.UndefendedNeverBy | backend/src/firefighter/problem.rs:95-98 | a node is undefended exactly when it is neither burning nor defended by any time |
| NodeStore.ByMonotone | backend/src/firefighter/problem.rs:60-86 | being burning or defended by a time stays true at every later time |
| NodeStore.RootIsBurningAtZero | backend/src/firefighter/problem.rs:47-66 | a node is a root exactly when it is burning by time 0 |
| WeightedEngine.ScanEdges | backend/src/firefighter/problem.rs:246-258 | scanning one slice reports activity exactly when it has an edge to an undefended node, and collects exactly the undefended targets whose edge has come due |
| WeightedEngine.ScanRecords | backend/src/firefighter/problem.rs:243-260 | scanning all burning records reports activity exactly when one of their slices is exposed, and collects exactly the targets some slice ignites |
| WeightedEngine.ScanMeaning | backend/src/firefighter/problem.rs:232-261 | the scan is active exactly when some burning node has an edge to an undefended node, and it collects exactly the undefended nodes `v` with an edge from a burning `b` such that `T >= t_b + w` |
| WeightedEngine.SpreadFireEffect | backend/src/firefighter/problem.rs:232-266 | after spreading, `is_active` says whether an edge was exposed; the burning nodes are the old ones plus exactly the ignited ones; old records are kept, new ones carry the current time; the defended map is untouched |
| WeightedEngine.SpreadSettles | backend/src/firefighter/problem.rs:243-258 | after a spread at time `T`, no edge from a burning node to a node still undefended is due: `T < t_b + w` |
| WeightedEngine.ContainFire | backend/src/firefighter/problem.rs:270-281 | containment changes nothing unless the time is a multiple of `strategy_every`; then the defended nodes are exactly the old ones plus the chosen ones, each chosen node's record carries the current time, every other defended record is kept, and the fire and the flags are untouched |
| WeightedEngine.ExecStep | backend/src/firefighter/problem.rs:286-291 | a step advances the clock by exactly one and keeps the graph and the settings |
| WeightedEngine.StepWithoutChoice | backend/src/firefighter/problem.rs:286-291 | a step whose strategy chooses nothing is the clock tick followed by a spread |
| WeightedEngine.StepKeepsWf | backend/src/firefighter/problem.rs:286-291 | a step keeps every record filed under its own id, and every id a node of the graph |
| WeightedEngine.StepKeepsDisjoint | backend/src/firefighter/problem.rs:230-291 | when the strategy defends only undefended nodes, no node is both burning and defended after a step, and defended nodes stay defended with the same record |
| WeightedEngine.StepSettles | backend/src/firefighter/problem.rs:411-417 | after a step, no undefended out-neighbour of a node that was burning before is overdue; for roots this is `global_time < 0 + w` |
| WeightedEngine.GenFireRoots | backend/src/firefighter/problem.rs:214-228 | at most `num_roots` roots are taken, each one a draw that is undefended in the storage |
| WeightedEngine.RootsAreFirstDraws | backend/src/firefighter/problem.rs:218-223 | on the empty storage the roots are exactly the first `num_roots` draws, repeats included |
| WeightedEngine.New | backend/src/firefighter/problem.rs:186-211 | construction fails exactly when more roots are asked for than there are nodes; otherwise it starts at time 0, active, with nothing defended |
| WeightedEngine.NewRoots | backend/src/firefighter/problem.rs:375-389 | after construction every burning node is a root and a node of the graph; there are at most `num_roots` of them, and exactly `num_roots` precisely when the draws used were distinct |
| WeightedEngine.Simulate | backend/src/firefighter/problem.rs:293-298 | simulating keeps the state well formed, never moves the clock back, leaves a finished engine unchanged, keeps every burning record and every defended node, and stops only after the given number of steps or when no burning node has an undefended out-neighbour left; after at least one active step, no edge from a node that was burning at the start reaches an undefended node whose ignition through that edge is already due |
| WeightedEngine.StepKeepsFire | backend/src/firefighter/problem.rs:286-291 | a step keeps every burning node with its ignition time and every defended node |
| WeightedEngine.ExposedAfterSpread | backend/src/firefighter/problem.rs:243-265 | a burning node with an undefended out-neighbour after a spread already had one before it: the marks only remove undefended nodes and add sources whose targets were undefended before |
| WeightedEngine.StopMeansSettled | backend/src/firefighter/problem.rs:243-265 | when a step leaves the engine inactive, no burning node has an undefended out-neighbour after it |
| WeightedEngine.ContainKeepsUnexposed | backend/src/firefighter/problem.rs:270-281 | containment never gives a burning node a new undefended out-neighbour |
| WeightedEngine.SpreadUnexposed | backend/src/firefighter/problem.rs:243-265 | when no burning node has an undefended out-neighbour, a spread ignites nothing and sets `is_active` to false |
| WeightedEngine.SettledStaysStopped | backend/src/firefighter/problem.rs:286-291 | once no burning node has an undefended out-neighbour, a step reports the engine inactive and the fire does not change |
| WeightedEngine.MetadataMeaning | backend/src/firefighter/problem.rs:324-331 | the step metadata for `t` counts the distinct nodes burning and defended by `t`, and lists exactly the nodes that caught fire or were defended at `t` |
| WeightedEngine.MetadataCounts | backend/src/firefighter/problem.rs:68-93 | the by-time counts are the sizes of the sets of nodes burning and defended by that time |
| WeightedExample.ActiveOneTickLate | backend/src/firefighter/problem.rs:243-265 | on a one-edge graph with its source burning, a step ignites the target and reports the engine active, although no edge is left exposed |
| UnweightedEngine.TryAttachNodeData | backend/src/firefighter.rs:123-132 | attaching fails with `NodeDataAlreadyAttached` exactly when the node already has data, and then nothing changes; otherwise only that node gains a record with the given state at the current time |
| UnweightedEngine.AttachOnce | backend/src/firefighter.rs:123-132 | a second attachment to the same node always fails, whatever the states |
| UnweightedEngine.AttachAll | backend/src/firefighter.rs:160-166 | attaching a list adds a record with the current time for every listed node and keeps every other record |
| UnweightedEngine.TrackChanges | backend/src/firefighter.rs:97-111 | tracking files the changed ids under the current time, appended after any ids already filed there, and leaves the other times alone |
| UnweightedEngine.TrackerSize | backend/src/firefighter.rs:219-220 | when the tracker holds exactly the times up to the current one, it has `global_time + 1` entries |
| UnweightedEngine.GenFireRootsFacts | backend/src/firefighter.rs:81-95 | the roots found are distinct, previously unattached draws; each is attached as burning at the current time and nothing else changes |
| UnweightedEngine.RootsFoundIff | backend/src/firefighter.rs:85-93 | root generation completes exactly when the draws contain at least `num_roots` distinct unattached nodes |
| UnweightedEngine.New | backend/src/firefighter.rs:61-79 | construction rejects more roots than nodes; otherwise it starts active at time 0 on the given graph |
| UnweightedEngine.NewFacts | backend/src/firefighter.rs:216-221 | after construction exactly `num_roots` nodes are attached, all burning at time 0 and in the graph; the tracker has one entry, for time 0, listing the roots |
| UnweightedEngine.NewSucceeds | backend/src/firefighter.rs:61-95 | construction succeeds whenever the roots fit in the graph and the draws contain enough distinct nodes |
| UnweightedEngine.ToBurnMeaning | backend/src/firefighter.rs:137-157 | the nodes collected for burning are exactly the unattached targets of edges out of burning nodes |
| UnweightedEngine.SpreadFireEffect | backend/src/firefighter.rs:136-171 | after spreading, the engine stays active exactly when something was reached; the attached nodes are the old ones plus exactly the reached ones, which burn at the current time; old records are kept; the changes are tracked under the current time |
| UnweightedEngine.StoppedStaysStopped | backend/src/firefighter.rs:160-169 | an engine that has stopped stays stopped after another step |
| UnweightedEngine.ExecStep | backend/src/firefighter.rs:182-187 | a step advances the clock by one and keeps the graph |
| UnweightedEngine.StepKeepsWf | backend/src/firefighter.rs:182-187 | a step keeps records filed under their own ids and inside the graph, and keeps the tracker holding exactly the times up to the current one |
| UnweightedEngine.StepBurnsNeighbours | backend/src/firefighter.rs:136-171 | after a step every out-neighbour of a burning node is attached, and burns if it was unattached before |
| UnweightedEngine.FirstStep | backend/src/firefighter.rs:231-248 | after construction and one step, the tracker has `global_time + 1` entries, every id filed at tick 1 is an out-neighbour of a root, and every out-neighbour of a root is burning |

## Left out

- File access (`File::open`, `BufReader::lines`) is an input: a file is either unopenable or a sequence of lines, each read or failing with an I/O error.
- Latitude and longitude are not converted to floating point. Floating-point arithmetic is outside the model, so a token's float syntax is checked and the token is kept as text.
- `u64` and `usize` overflow in `t_b + dist` (weighted spread) and in `dist[u] + w` (Dijkstra) is not modelled. Integers are unbounded, and an infinite distance stands for `usize::MAX`.
- ShortestPaths.RunDijkstra: a source id outside the graph, which panics on the index, is excluded by a precondition rather than modelled as an error.
- The indexed binary min-heap's internals (`push`, `decrease_key`, `contains`) are not modelled. The queue is a set, and `pop` is modelled by its contract of returning a minimum.
- The concrete strategies (Greedy, MinDistanceGroup, Priority) and `compute_nodes_to_defend` are not modelled; they live in other files. The nodes a strategy defends are an input to a step, and `simulate` takes the strategy as a function.
- The random number generator is an input sequence of draws, each a node id. UnweightedEngine.New reports running out of draws as an error, because its loop skips repeated draws.
- WeightedEngine.New requires at least `num_roots` draws when the roots fit in the graph. On the empty storage the source uses exactly the first `num_roots` draws, so a longer sequence changes nothing.
- ShortestPaths.RunDijkstra requires a valid graph: a slice table that is valid for the edges, and edge targets that are node ids. The source reads whatever slices the table gives and does not check this. `parse_graph` produces such a table for sorted edge files (GraphFile.ParsedGraphValid), and the Findings row covers the case where it does not.
- WeightedEngine.SpreadFire and UnweightedEngine.SpreadFire require the same valid graph, with every burning node a node of it, for the same reason.
- WeightedEngine.ContainFire requires `strategy_every > 0`. The source would panic on a remainder by zero.
- Lexing.ParseUsize: `usize` is taken to be 64 bits wide (`USIZE_MAX` is 2^64 - 1), i.e. a 64-bit target; Rust's `usize` width depends on the platform.
- WeightedEngine.Simulate takes a step budget (`fuel`) because the source's loop has no termination argument. The model does not prove that the loop always ends.
- `mark_defended2` is identical to `mark_defended` apart from its slice argument, so NodeStore.MarkDefended models both.
- `contain_fire` of the unweighted engine is `todo!()` and its call in `exec_step` is commented out, so the unweighted step has no containment.
- Iteration over `HashMap` values in the unweighted engine follows ascending keys. Only the order of ids inside a tracker entry depends on it.
- Logging, the view and PNG rendering, serialisation, `simulation_response`, `view_response`, grid bounds, and the `Arc`/`RwLock` sharing are not modelled. None of them affects the simulation state.
- Repeated ids are not removed from the nodes to burn or from a tracker entry, as in the source. Contracts about them speak of membership.

## Findings

| source | as written | input that shows it | evidently intended | confidence | as-written member | corrected member |
|---|---|---|---|---|---|---|
| backend/src/graph.rs:173-205 | offsets of nodes after the last edge source keep their initial 0; only `offsets[num_nodes]` is set to `num_edges` | 3 nodes, edges sorted with sources 0 and 1: offsets become `[0, 1, 0, 2]`, so `get_degree(1)` computes `0 - 1` and underflows, and node 2's slice is `0..2`, the edges of nodes 0 and 1, so `get_degree(2)` is 2; a burning node 2 would spread fire along those edges and Dijkstra would relax them from node 2 | nodes without outgoing edges after the last source get offset `num_edges`, giving `[0, 1, 2, 2]` | not executed | GraphStore.TrailingSinkCounterexample | GraphStore.FilledOffsetsValid |
