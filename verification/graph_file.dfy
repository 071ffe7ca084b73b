/** Reading a graph file (`Graph::parse_graph` and `Graph::from_file` of
    `backend/src/graph.rs`). The file is given as the sequence of its lines,
    each either read or failing with an I/O error; opening the file can fail
    too. Leading `#` lines are skipped and the first other line is dropped;
    then come the node count, the edge count, the node lines and the edge
    lines. */
module GraphFile {

  import opened Wrappers
  import opened Lexing
  import opened GraphStore

  datatype LineRead = Line(text: string) | ReadFailure
  datatype File = Unopenable | Opened(lines: seq<LineRead>)

  /** The recoverable errors of the parser (`ParseError`). */
  datatype ParseError = Io | ParseInt | ParseFloat

  /** The places where the parser calls `expect` on a missing line or token. */
  datatype Panic =
    | EofInHeader | EofAtNodeCount | EofAtEdgeCount
    | EofInNodes | EolAtLatitude | EolAtLongitude
    | EofInEdges | EolAtTarget | EolAtWeight
    | OffsetOutOfBounds

  datatype Failure = Panicked(panic: Panic) | Errored(error: ParseError)

  predicate IsComment(line: string) {
    |line| > 0 && line[0] == '#'
  }

  /** Lines `i` up to `j` (exclusive) were all read and are all comments. */
  ghost predicate CommentRun(lines: seq<LineRead>, i: nat, j: nat)
    requires i <= j <= |lines|
  {
    forall k :: i <= k < j ==> lines[k].Line? && IsComment(lines[k].text)
  }

  /** Line `j` is where the header loop starting at `i` stops looking: every
      line before it is a comment and it is not (a read failure, or a line
      that is not a comment). */
  ghost predicate HeaderEndsAt(lines: seq<LineRead>, i: nat, j: nat) {
    && i <= j < |lines| && CommentRun(lines, i, j)
    && !(lines[j].Line? && IsComment(lines[j].text))
  }

  /** The header loop: skips `#` lines starting at `i` and consumes the first
      other line; the result is the index just past that line. A read failure
      met first is an I/O error, and running out of lines first is a panic. */
  function SkipHeader(lines: seq<LineRead>, i: nat): (r: Result<nat, Failure>)
    requires i <= |lines|
    ensures r.Ok? ==> i < r.value <= |lines| && HeaderEndsAt(lines, i, r.value - 1) && lines[r.value - 1].Line?
    ensures r == Err(Panicked(EofInHeader)) <==> CommentRun(lines, i, |lines|)
    ensures r.Err? ==> r == Err(Errored(Io)) || r == Err(Panicked(EofInHeader))
    ensures i < |lines| && lines[i].ReadFailure? ==> r == Err(Errored(Io))
    ensures i < |lines| && lines[i].Line? && !IsComment(lines[i].text) ==> r == Ok(i + 1)
    decreases |lines| - i
  {
    if i == |lines| then Err(Panicked(EofInHeader))
    else match lines[i]
      case ReadFailure => Err(Errored(Io))
      case Line(text) => if IsComment(text) then SkipHeader(lines, i + 1) else Ok(i + 1)
  }

  /** Where the header loop stops decides its outcome: an I/O error on a read
      failure, otherwise success just past the line it stopped at. */
  lemma {:induction false} HeaderOutcome(lines: seq<LineRead>, i: nat, j: nat)
    requires HeaderEndsAt(lines, i, j)
    ensures SkipHeader(lines, i) == if lines[j].ReadFailure? then Err(Errored(Io)) else Ok(j + 1)
    decreases j - i
  {
    if i < j {
      assert lines[i].Line? && IsComment(lines[i].text);
      assert HeaderEndsAt(lines, i + 1, j);
      HeaderOutcome(lines, i + 1, j);
    }
  }

  /** Unless every line from `i` on is a comment, the header loop has a
      place to stop, so its three outcomes cover every input. */
  lemma {:induction false} HeaderEndExists(lines: seq<LineRead>, i: nat)
    requires i <= |lines| && !CommentRun(lines, i, |lines|)
    ensures exists j: nat :: HeaderEndsAt(lines, i, j)
    decreases |lines| - i
  {
    if lines[i].Line? && IsComment(lines[i].text) {
      assert !CommentRun(lines, i + 1, |lines|);
      HeaderEndExists(lines, i + 1);
      var j :| HeaderEndsAt(lines, i + 1, j);
      assert HeaderEndsAt(lines, i, j);
    } else {
      assert HeaderEndsAt(lines, i, i);
    }
  }

  /** A count line: the whole line must be a `usize`. */
  function ReadCount(lines: seq<LineRead>, i: nat, eof: Panic): (r: Result<usize, Failure>)
    ensures r.Ok? ==> i < |lines| && lines[i].Line? && ParseUsize(lines[i].text) == Some(r.value)
    ensures i < |lines| && lines[i].Line? && ParseUsize(lines[i].text).Some? ==>
              r == Ok(ParseUsize(lines[i].text).value)
    ensures i < |lines| && lines[i].Line? && ParseUsize(lines[i].text).None? ==> r == Err(Errored(ParseInt))
    ensures i < |lines| && lines[i].ReadFailure? ==> r == Err(Errored(Io))
    ensures i >= |lines| ==> r == Err(Panicked(eof))
  {
    if i >= |lines| then Err(Panicked(eof))
    else match lines[i]
      case ReadFailure => Err(Errored(Io))
      case Line(text) =>
        match ParseUsize(text)
        case None => Err(Errored(ParseInt))
        case Some(n) => Ok(n)
  }

  /** A node line `<id> <id> <lat> <lon> ...`: the two id columns are skipped
      and the node gets the running index `id` instead. */
  function ParseNodeLine(text: string, id: nat): (r: Result<Node, Failure>)
    ensures var t := SplitOn(text, ' ');
      r.Ok? <==> |t| >= 4 && IsFloatLiteral(t[2]) && IsFloatLiteral(t[3])
    ensures var t := SplitOn(text, ' ');
      r.Ok? ==> r.value == Node(id, t[2], t[3])
  {
    var t := SplitOn(text, ' ');
    if |t| < 3 then Err(Panicked(EolAtLatitude))
    else if !IsFloatLiteral(t[2]) then Err(Errored(ParseFloat))
    else if |t| < 4 then Err(Panicked(EolAtLongitude))
    else if !IsFloatLiteral(t[3]) then Err(Errored(ParseFloat))
    else Ok(Node(id, t[2], t[3]))
  }

  /** An edge line `<src> <tgt> <dist> ...`. A split always yields a first
      token, so only the target and weight can be missing. */
  function ParseEdgeLine(text: string): (r: Result<Edge, Failure>)
    ensures var t := SplitOn(text, ' ');
      r.Ok? <==> |t| >= 3 && ParseUsize(t[0]).Some? && ParseUsize(t[1]).Some? && ParseUsize(t[2]).Some?
    ensures var t := SplitOn(text, ' ');
      r.Ok? ==> r.value == Edge(ParseUsize(t[0]).value, ParseUsize(t[1]).value, ParseUsize(t[2]).value)
  {
    var t := SplitOn(text, ' ');
    match ParseUsize(t[0])
    case None => Err(Errored(ParseInt))
    case Some(src) =>
      if |t| < 2 then Err(Panicked(EolAtTarget))
      else match ParseUsize(t[1])
        case None => Err(Errored(ParseInt))
        case Some(tgt) =>
          if |t| < 3 then Err(Panicked(EolAtWeight))
          else match ParseUsize(t[2])
            case None => Err(Errored(ParseInt))
            case Some(dist) => Ok(Edge(src, tgt, dist))
  }

  /** The `count` lines from `from` on are present and each is a node line. */
  predicate NodeLinesParse(lines: seq<LineRead>, from: nat, count: nat) {
    && from + count <= |lines|
    && forall k :: from <= k < from + count ==>
         lines[k].Line? && ParseNodeLine(lines[k].text, k - from).Ok?
  }

  /** The `count` lines from `from` on are present and each is an edge line
      whose source, read as `i64`, does not pass `n`. */
  predicate EdgeLinesParse(lines: seq<LineRead>, from: nat, count: nat, n: nat) {
    && from + count <= |lines|
    && forall k :: from <= k < from + count ==>
         lines[k].Line? && ParseEdgeLine(lines[k].text).Ok? && AsI64(ParseEdgeLine(lines[k].text).value.src) <= n
  }

  /** One more node line extends the run of parsing node lines by one. */
  lemma NodeLinesSnoc(lines: seq<LineRead>, count: nat)
    requires count > 0
    ensures NodeLinesParse(lines, 0, count) <==>
              && NodeLinesParse(lines, 0, count - 1)
              && count - 1 < |lines| && lines[count - 1].Line?
              && ParseNodeLine(lines[count - 1].text, count - 1).Ok?
  {
    if NodeLinesParse(lines, 0, count) {
      assert lines[count - 1].Line? && ParseNodeLine(lines[count - 1].text, count - 1 - 0).Ok?;
    }
  }

  /** One more edge line extends the run of parsing edge lines by one. */
  lemma EdgeLinesSnoc(lines: seq<LineRead>, count: nat, n: nat)
    requires count > 0
    ensures EdgeLinesParse(lines, 0, count, n) <==>
              && EdgeLinesParse(lines, 0, count - 1, n)
              && count - 1 < |lines| && lines[count - 1].Line?
              && ParseEdgeLine(lines[count - 1].text).Ok?
              && AsI64(ParseEdgeLine(lines[count - 1].text).value.src) <= n
  {
  }

  /** The first `count` node lines, in order; the first failure wins. */
  function ParseNodes(lines: seq<LineRead>, count: nat): (r: Result<seq<Node>, Failure>)
    ensures r.Ok? <==> NodeLinesParse(lines, 0, count)
    ensures r.Ok? ==>
              && |r.value| == count && count <= |lines|
              && (forall i :: 0 <= i < count ==> lines[i].Line? && ParseNodeLine(lines[i].text, i) == Ok(r.value[i]))
    ensures r.Ok? ==> forall i :: 0 <= i < count ==> r.value[i].id == i
  {
    if count == 0 then Ok([])
    else
      NodeLinesSnoc(lines, count);
      match ParseNodes(lines, count - 1)
      case Err(f) => Err(f)
      case Ok(prefix) =>
        if count - 1 >= |lines| then Err(Panicked(EofInNodes))
        else match lines[count - 1]
          case ReadFailure => Err(Errored(Io))
          case Line(text) =>
            match ParseNodeLine(text, count - 1)
            case Err(f) => Err(f)
            case Ok(node) =>
              NodesExtend(lines, prefix, node);
              Ok(prefix + [node])
  }

  /** One more node line, read in order, extends the nodes read so far. */
  lemma NodesExtend(lines: seq<LineRead>, prefix: seq<Node>, node: Node)
    requires |prefix| < |lines|
    requires forall i :: 0 <= i < |prefix| ==> lines[i].Line? && ParseNodeLine(lines[i].text, i) == Ok(prefix[i])
    requires forall i :: 0 <= i < |prefix| ==> prefix[i].id == i
    requires lines[|prefix|].Line? && ParseNodeLine(lines[|prefix|].text, |prefix|) == Ok(node)
    ensures forall i :: 0 <= i <= |prefix| ==> lines[i].Line? && ParseNodeLine(lines[i].text, i) == Ok((prefix + [node])[i])
    ensures forall i :: 0 <= i <= |prefix| ==> (prefix + [node])[i].id == i
  {
    assert forall i :: 0 <= i < |prefix| ==> (prefix + [node])[i] == prefix[i];
  }

  /** The first `count` edge lines, in order. After each edge the offsets
      loop writes `offsets[j]` for `j` up to the edge's source; a source
      beyond `n` indexes past the table and panics before the next line. */
  function ParseEdges(lines: seq<LineRead>, count: nat, n: nat): (r: Result<seq<Edge>, Failure>)
    ensures r.Ok? <==> EdgeLinesParse(lines, 0, count, n)
    ensures r.Ok? ==>
              && |r.value| == count && count <= |lines|
              && (forall j :: 0 <= j < count ==> lines[j].Line? && ParseEdgeLine(lines[j].text) == Ok(r.value[j]))
    ensures r.Ok? ==> !OffsetsOverflow(Srcs(r.value), n)
  {
    if count == 0 then Ok([])
    else
      EdgeLinesSnoc(lines, count, n);
      match ParseEdges(lines, count - 1, n)
      case Err(f) => Err(f)
      case Ok(prefix) =>
        if count - 1 >= |lines| then Err(Panicked(EofInEdges))
        else match lines[count - 1]
          case ReadFailure => Err(Errored(Io))
          case Line(text) =>
            match ParseEdgeLine(text)
            case Err(f) => Err(f)
            case Ok(edge) =>
              if AsI64(edge.src) > n then Err(Panicked(OffsetOutOfBounds))
              else
                EdgesExtend(lines, n, prefix, edge);
                Ok(prefix + [edge])
  }

  /** One more edge line, read in order, extends the edges read so far. */
  lemma EdgesExtend(lines: seq<LineRead>, n: nat, prefix: seq<Edge>, edge: Edge)
    requires |prefix| < |lines|
    requires forall j :: 0 <= j < |prefix| ==> lines[j].Line? && ParseEdgeLine(lines[j].text) == Ok(prefix[j])
    requires lines[|prefix|].Line? && ParseEdgeLine(lines[|prefix|].text) == Ok(edge)
    requires !OffsetsOverflow(Srcs(prefix), n) && AsI64(edge.src) <= n
    ensures forall j :: 0 <= j <= |prefix| ==> lines[j].Line? && ParseEdgeLine(lines[j].text) == Ok((prefix + [edge])[j])
    ensures !OffsetsOverflow(Srcs(prefix + [edge]), n)
  {
    assert Srcs(prefix + [edge]) == Srcs(prefix) + [edge.src];
    assert forall j :: 0 <= j < |prefix| ==> (prefix + [edge])[j] == prefix[j];
  }

  /** `g`'s tables are the lines from `from` on: node `i` is the parse of
      line `from + i`, edge `j` the parse of line `from + numNodes + j`, and
      the offsets are the table the loop builds from the edge sources. */
  ghost predicate TablesFrom(lines: seq<LineRead>, from: nat, g: Graph) {
    && |g.nodes| == g.numNodes && |g.edges| == g.numEdges
    && NodesAt(lines, from, g.nodes)
    && EdgesAt(lines, from + g.numNodes, g.edges)
    && g.offsets == AsWrittenOffsets(Srcs(g.edges), g.numNodes)
  }

  /** Node `i` of `nodes` is the parse of line `from + i`. */
  ghost predicate NodesAt(lines: seq<LineRead>, from: nat, nodes: seq<Node>) {
    && from + |nodes| <= |lines|
    && forall k :: from <= k < from + |nodes| ==>
         lines[k].Line? && ParseNodeLine(lines[k].text, k - from) == Ok(nodes[k - from])
  }

  /** Edge `j` of `edges` is the parse of line `from + j`. */
  ghost predicate EdgesAt(lines: seq<LineRead>, from: nat, edges: seq<Edge>) {
    && from + |edges| <= |lines|
    && forall k :: from <= k < from + |edges| ==>
         lines[k].Line? && ParseEdgeLine(lines[k].text) == Ok(edges[k - from])
  }

  /** After a header ending before line `h`: the two count lines parse, and
      the node and edge lines they announce are present and parse. */
  predicate BodyParses(lines: seq<LineRead>, h: nat) {
    && ReadCount(lines, h, EofAtNodeCount).Ok?
    && ReadCount(lines, h + 1, EofAtEdgeCount).Ok?
    && var n := ReadCount(lines, h, EofAtNodeCount).value;
       var m := ReadCount(lines, h + 1, EofAtEdgeCount).value;
       NodeLinesParse(lines, h + 2, n) && EdgeLinesParse(lines, h + 2 + n, m, n)
  }

  /** `g` is what the lines after a header ending before line `h` describe:
      its counts are the two count lines and its tables the lines after them. */
  ghost predicate Describes(lines: seq<LineRead>, h: nat, g: Graph) {
    && ReadCount(lines, h, EofAtNodeCount).Ok? && ReadCount(lines, h, EofAtNodeCount).value == g.numNodes
    && ReadCount(lines, h + 1, EofAtEdgeCount).Ok? && ReadCount(lines, h + 1, EofAtEdgeCount).value == g.numEdges
    && TablesFrom(lines, h + 2, g)
  }

  /** Dropping the first `d` lines moves every run of node lines by `d`. */
  lemma NodeLinesShift(lines: seq<LineRead>, d: nat, from: nat, count: nat)
    requires d <= |lines|
    ensures NodeLinesParse(lines[d..], from, count) <==> NodeLinesParse(lines, d + from, count)
  {
    if NodeLinesParse(lines, d + from, count) {
      forall k | from <= k < from + count
        ensures lines[d..][k].Line? && ParseNodeLine(lines[d..][k].text, k - from).Ok?
      {
        assert lines[d..][k] == lines[d + k];
        assert (d + k) - (d + from) == k - from;
      }
    }
    if NodeLinesParse(lines[d..], from, count) {
      forall k | d + from <= k < d + from + count
        ensures lines[k].Line? && ParseNodeLine(lines[k].text, k - (d + from)).Ok?
      {
        assert lines[d..][k - d] == lines[k];
      }
    }
  }

  /** Dropping the first `d` lines moves every run of edge lines by `d`. */
  lemma EdgeLinesShift(lines: seq<LineRead>, d: nat, from: nat, count: nat, n: nat)
    requires d <= |lines|
    ensures EdgeLinesParse(lines[d..], from, count, n) <==> EdgeLinesParse(lines, d + from, count, n)
  {
    if EdgeLinesParse(lines, d + from, count, n) {
      forall k | from <= k < from + count
        ensures lines[d..][k] == lines[d + k]
      {
      }
    }
    if EdgeLinesParse(lines[d..], from, count, n) {
      forall k | d + from <= k < d + from + count
        ensures lines[d..][k - d] == lines[k]
      {
      }
    }
  }

  /** Dropping the first `d` lines moves the tables by `d`. */
  lemma NodesShift(lines: seq<LineRead>, d: nat, from: nat, nodes: seq<Node>)
    requires d <= |lines| && NodesAt(lines[d..], from, nodes)
    ensures NodesAt(lines, d + from, nodes)
  {
    forall k | d + from <= k < d + from + |nodes|
      ensures lines[k].Line? && ParseNodeLine(lines[k].text, k - (d + from)) == Ok(nodes[k - (d + from)])
    {
      assert lines[d..][k - d] == lines[k];
    }
  }

  lemma EdgesShift(lines: seq<LineRead>, d: nat, from: nat, edges: seq<Edge>)
    requires d <= |lines| && EdgesAt(lines[d..], from, edges)
    ensures EdgesAt(lines, d + from, edges)
  {
    forall k | d + from <= k < d + from + |edges|
      ensures lines[k].Line? && ParseEdgeLine(lines[k].text) == Ok(edges[k - (d + from)])
    {
      assert lines[d..][k - d] == lines[k];
    }
  }

  /** `parse_graph`: the graph is read exactly when the file opens, its
      header ends, and the counts and the lines they announce parse; the
      graph read is the one those lines describe. */
  function ParseGraph(file: File): (r: Result<Graph, Failure>)
    ensures r.Ok? <==> file.Opened? && SkipHeader(file.lines, 0).Ok? && BodyParses(file.lines, SkipHeader(file.lines, 0).value)
    ensures r.Ok? ==> file.Opened? && SkipHeader(file.lines, 0).Ok? && Describes(file.lines, SkipHeader(file.lines, 0).value, r.value)
    ensures r.Ok? ==> |r.value.nodes| == r.value.numNodes && |r.value.edges| == r.value.numEdges
    ensures r.Ok? ==> forall i :: 0 <= i < |r.value.nodes| ==> r.value.nodes[i].id == i
    ensures r.Ok? ==> r.value.offsets == AsWrittenOffsets(Srcs(r.value.edges), r.value.numNodes)
    ensures file.Unopenable? ==> r == Err(Errored(Io))
  {
    match file
    case Unopenable => Err(Errored(Io))
    case Opened(lines) =>
      match SkipHeader(lines, 0)
      case Err(f) => Err(f)
      case Ok(h) => ParseCounted(lines, h)
  }

  /** The two count lines after the header, then the tables. */
  function ParseCounted(lines: seq<LineRead>, h: nat): (r: Result<Graph, Failure>)
    ensures r.Ok? <==> BodyParses(lines, h)
    ensures r.Ok? ==> Describes(lines, h, r.value)
    ensures r.Ok? ==> |r.value.nodes| == r.value.numNodes && |r.value.edges| == r.value.numEdges
    ensures r.Ok? ==> forall i :: 0 <= i < |r.value.nodes| ==> r.value.nodes[i].id == i
    ensures r.Ok? ==> r.value.offsets == AsWrittenOffsets(Srcs(r.value.edges), r.value.numNodes)
  {
    match ReadCount(lines, h, EofAtNodeCount)
    case Err(f) => Err(f)
    case Ok(n) =>
      match ReadCount(lines, h + 1, EofAtEdgeCount)
      case Err(f) => Err(f)
      case Ok(m) =>
        CountedTables(lines, h, n, m);
        ParseTables(lines[h + 2..], n, m)
  }

  /** Once both counts are read, the tables are read exactly when the body
      parses, and they are the ones the lines describe. */
  lemma CountedTables(lines: seq<LineRead>, h: nat, n: nat, m: nat)
    requires ReadCount(lines, h, EofAtNodeCount) == Ok(n)
    requires ReadCount(lines, h + 1, EofAtEdgeCount) == Ok(m)
    ensures h + 2 <= |lines|
    ensures var r := ParseTables(lines[h + 2..], n, m);
      && (r.Ok? <==> BodyParses(lines, h))
      && (r.Ok? ==> Describes(lines, h, r.value))
  {
    CountedParses(lines, h, n, m);
    var r := ParseTables(lines[h + 2..], n, m);
    if r.Ok? {
      CountedDescribes(lines, h, n, m, r.value);
    }
  }

  lemma CountedDescribes(lines: seq<LineRead>, h: nat, n: nat, m: nat, g: Graph)
    requires ReadCount(lines, h, EofAtNodeCount) == Ok(n)
    requires ReadCount(lines, h + 1, EofAtEdgeCount) == Ok(m)
    requires h + 2 <= |lines| && g.numNodes == n && g.numEdges == m
    requires TablesFrom(lines[h + 2..], 0, g)
    ensures Describes(lines, h, g)
  {
    TablesShift(lines, h + 2, g);
    DescribesIntro(lines, h, g);
  }

  /** Dropping the first `d` lines moves the tables by `d`. */
  lemma TablesShift(lines: seq<LineRead>, d: nat, g: Graph)
    requires d <= |lines| && TablesFrom(lines[d..], 0, g)
    ensures TablesFrom(lines, d, g)
  {
    assert NodesAt(lines, d, g.nodes) by {
      NodesShift(lines, d, 0, g.nodes);
    }
    assert EdgesAt(lines, d + g.numNodes, g.edges) by {
      EdgesShift(lines, d, g.numNodes, g.edges);
    }
  }

  lemma DescribesIntro(lines: seq<LineRead>, h: nat, g: Graph)
    requires ReadCount(lines, h, EofAtNodeCount) == Ok(g.numNodes)
    requires ReadCount(lines, h + 1, EofAtEdgeCount) == Ok(g.numEdges)
    requires TablesFrom(lines, h + 2, g)
    ensures Describes(lines, h, g)
  {
  }

  lemma CountedParses(lines: seq<LineRead>, h: nat, n: nat, m: nat)
    requires ReadCount(lines, h, EofAtNodeCount) == Ok(n)
    requires ReadCount(lines, h + 1, EofAtEdgeCount) == Ok(m)
    ensures h + 2 <= |lines|
    ensures ParseTables(lines[h + 2..], n, m).Ok? <==> BodyParses(lines, h)
  {
    NodeLinesShift(lines, h + 2, 0, n);
    EdgeLinesShift(lines, h + 2, n, m, n);
    assert BodyParses(lines, h) <==> NodeLinesParse(lines, h + 2, n) && EdgeLinesParse(lines, h + 2 + n, m, n);
  }

  /** Node and edge lines read in turn make up the tables. */
  lemma TablesRead(body: seq<LineRead>, n: nat, m: nat, nodes: seq<Node>, edges: seq<Edge>)
    requires |nodes| == n && |edges| == m
    requires NodesAt(body, 0, nodes) && EdgesAt(body, n, edges)
    ensures TablesFrom(body, 0, Graph(nodes, edges, AsWrittenOffsets(Srcs(edges), n), n, m))
  {
  }

  lemma NodesRead(body: seq<LineRead>, n: nat, nodes: seq<Node>)
    requires ParseNodes(body, n) == Ok(nodes)
    ensures NodesAt(body, 0, nodes)
  {
  }

  lemma EdgesRead(body: seq<LineRead>, n: nat, m: nat, edges: seq<Edge>)
    requires n <= |body| && ParseEdges(body[n..], m, n) == Ok(edges)
    ensures EdgesAt(body, n, edges)
  {
    assert EdgesAt(body[n..], 0, edges);
    EdgesShift(body, n, 0, edges);
  }

  /** `n` node lines followed by `m` edge lines, and the offsets built from
      the edges. */
  function ParseTables(body: seq<LineRead>, n: nat, m: nat): (r: Result<Graph, Failure>)
    ensures r.Ok? <==> NodeLinesParse(body, 0, n) && EdgeLinesParse(body, n, m, n)
    ensures r.Ok? ==> r.value.numNodes == n && r.value.numEdges == m && TablesFrom(body, 0, r.value)
    ensures r.Ok? ==> |r.value.nodes| == r.value.numNodes == n && |r.value.edges| == r.value.numEdges == m
    ensures r.Ok? ==> forall i :: 0 <= i < |r.value.nodes| ==> r.value.nodes[i].id == i
    ensures r.Ok? ==> r.value.offsets == AsWrittenOffsets(Srcs(r.value.edges), r.value.numNodes)
  {
    match ParseNodes(body, n)
    case Err(f) => Err(f)
    case Ok(nodes) =>
      EdgeLinesShift(body, n, 0, m, n);
      match ParseEdges(body[n..], m, n)
      case Err(f) => Err(f)
      case Ok(edges) =>
        NodesRead(body, n, nodes);
        EdgesRead(body, n, m, edges);
        TablesRead(body, n, m, nodes, edges);
        Ok(Graph(nodes, edges, AsWrittenOffsets(Srcs(edges), n), n, m))
  }

  /** `from_file`: a parse error is turned into a panic, so construction
      either yields the whole parsed graph or aborts (`None`). */
  function FromFile(file: File): (r: Option<Graph>)
    ensures r.None? <==> ParseGraph(file).Err?
    ensures r.Some? ==> ParseGraph(file) == Ok(r.value)
  {
    match ParseGraph(file)
    case Ok(g) => Some(g)
    case Err(_) => None
  }

  /** A parsed graph whose edge lines are grouped by ascending source, end
      with the last node (or are absent), and point at node ids is valid. */
  lemma ParsedGraphValid(file: File)
    requires ParseGraph(file).Ok?
    requires var g := ParseGraph(file).value;
      && SortedSources(Srcs(g.edges), g.numNodes)
      && (|g.edges| == 0 || g.edges[|g.edges| - 1].src == g.numNodes - 1)
      && (forall i :: 0 <= i < |g.edges| ==> g.edges[i].tgt < g.numNodes)
    ensures ValidGraph(ParseGraph(file).value)
  {
    var g := ParseGraph(file).value;
    AsWrittenOffsetsValid(Srcs(g.edges), g.numNodes);
  }

  // ---------------------------------------------------------------------
  // Writing a graph file, and reading it back
  // ---------------------------------------------------------------------

  function NodeLine(node: Node): string {
    JoinOn([NatToString(node.id), NatToString(node.id), node.lat, node.lon], ' ')
  }

  function EdgeLine(edge: Edge): string {
    JoinOn([NatToString(edge.src), NatToString(edge.tgt), NatToString(edge.dist)], ' ')
  }

  function AsLines(texts: seq<string>): (r: seq<LineRead>)
    ensures |r| == |texts| && forall i :: 0 <= i < |texts| ==> r[i] == Line(texts[i])
  {
    seq(|texts|, i requires 0 <= i < |texts| => Line(texts[i]))
  }

  function NodeLines(nodes: seq<Node>): (r: seq<LineRead>)
    ensures |r| == |nodes| && forall i :: 0 <= i < |nodes| ==> r[i] == Line(NodeLine(nodes[i]))
  {
    seq(|nodes|, i requires 0 <= i < |nodes| => Line(NodeLine(nodes[i])))
  }

  function EdgeLines(edges: seq<Edge>): (r: seq<LineRead>)
    ensures |r| == |edges| && forall i :: 0 <= i < |edges| ==> r[i] == Line(EdgeLine(edges[i]))
  {
    seq(|edges|, i requires 0 <= i < |edges| => Line(EdgeLine(edges[i])))
  }

  /** A graph file: comment lines, an empty line, the counts, then one line
      per node and per edge. */
  function Render(comments: seq<string>, nodes: seq<Node>, edges: seq<Edge>): seq<LineRead> {
    AsLines(comments)
      + [Line(""), Line(NatToString(|nodes|)), Line(NatToString(|edges|))]
      + (NodeLines(nodes) + EdgeLines(edges))
  }

  /** Nodes that a file can hold: numbered in order, with coordinate tokens
      that are float literals containing no space. */
  predicate Writable(nodes: seq<Node>) {
    forall i :: 0 <= i < |nodes| ==>
      && nodes[i].id == i
      && ' ' !in nodes[i].lat && IsFloatLiteral(nodes[i].lat)
      && ' ' !in nodes[i].lon && IsFloatLiteral(nodes[i].lon)
  }

  lemma ReadNodeLine(node: Node)
    requires ' ' !in node.lat && ' ' !in node.lon
    requires IsFloatLiteral(node.lat) && IsFloatLiteral(node.lon)
    ensures ParseNodeLine(NodeLine(node), node.id) == Ok(node)
  {
    var t := [NatToString(node.id), NatToString(node.id), node.lat, node.lon];
    SplitJoin(t, ' ');
  }

  lemma ReadEdgeLine(edge: Edge)
    ensures ParseEdgeLine(EdgeLine(edge)) == Ok(edge)
  {
    var t := [NatToString(edge.src), NatToString(edge.tgt), NatToString(edge.dist)];
    SplitJoin(t, ' ');
    ParseRendered(edge.src);
    ParseRendered(edge.tgt);
    ParseRendered(edge.dist);
  }

  lemma PrefixSnoc<T>(s: seq<T>, k: nat)
    requires 0 < k <= |s|
    ensures s[..k] == s[..k - 1] + [s[k - 1]]
  {
  }

  lemma {:induction false} ReadNodeLines(lines: seq<LineRead>, nodes: seq<Node>, count: nat)
    requires Writable(nodes) && count <= |nodes| <= |lines|
    requires forall i :: 0 <= i < |nodes| ==> lines[i] == Line(NodeLine(nodes[i]))
    ensures ParseNodes(lines, count) == Ok(nodes[..count])
  {
    if count > 0 {
      ReadNodeLines(lines, nodes, count - 1);
      ReadNodeLine(nodes[count - 1]);
      PrefixSnoc(nodes, count);
    }
  }

  lemma ParseEdgesStep(lines: seq<LineRead>, count: nat, n: nat, prefix: seq<Edge>, e: Edge)
    requires 0 < count <= |lines|
    requires ParseEdges(lines, count - 1, n) == Ok(prefix)
    requires lines[count - 1].Line? && ParseEdgeLine(lines[count - 1].text) == Ok(e)
    requires AsI64(e.src) <= n
    ensures ParseEdges(lines, count, n) == Ok(prefix + [e])
  {
  }

  lemma {:induction false} ReadEdgeLines(lines: seq<LineRead>, edges: seq<Edge>, count: nat, n: nat)
    requires count <= |edges| <= |lines|
    requires forall i :: 0 <= i < |edges| ==> AsI64(edges[i].src) <= n
    requires forall i :: 0 <= i < |edges| ==> lines[i] == Line(EdgeLine(edges[i]))
    ensures ParseEdges(lines, count, n) == Ok(edges[..count])
  {
    if count > 0 {
      var e := edges[count - 1];
      ReadEdgeLines(lines, edges, count - 1, n);
      ReadEdgeLine(e);
      ParseEdgesStep(lines, count, n, edges[..count - 1], e);
      PrefixSnoc(edges, count);
    }
  }

  /** Reading back a written file yields the same nodes and edges, with the
      offsets table the loop builds, whatever the comments were. */
  lemma RenderParseRoundTrip(comments: seq<string>, nodes: seq<Node>, edges: seq<Edge>)
    requires forall i :: 0 <= i < |comments| ==> IsComment(comments[i])
    requires |nodes| <= USIZE_MAX && |edges| <= USIZE_MAX
    requires Writable(nodes)
    requires !OffsetsOverflow(Srcs(edges), |nodes|)
    ensures ParseGraph(Opened(Render(comments, nodes, edges)))
            == Ok(Graph(nodes, edges, AsWrittenOffsets(Srcs(edges), |nodes|), |nodes|, |edges|))
  {
    var lines := Render(comments, nodes, edges);
    var h := |comments| + 1;
    SkipComments(lines, comments, 0);
    ParseRendered(|nodes|);
    ParseRendered(|edges|);
    assert lines[h] == Line(NatToString(|nodes|));
    assert lines[h + 1] == Line(NatToString(|edges|));
    ReadRenderedNodes(lines, h, nodes, edges, comments);
    ReadRenderedEdges(lines, h, nodes, edges, comments);
    ParseGraphSteps(lines, h, nodes, edges);
  }

  /** Past the comments, the blank line and the two counts, a rendered file
      holds the node lines and then the edge lines. */
  lemma RenderedBody(lines: seq<LineRead>, h: nat, nodes: seq<Node>, edges: seq<Edge>, comments: seq<string>)
    requires lines == Render(comments, nodes, edges) && h == |comments| + 1
    ensures h + 2 <= |lines| && lines[h + 2..] == NodeLines(nodes) + EdgeLines(edges)
  {
    var head := AsLines(comments) + [Line(""), Line(NatToString(|nodes|)), Line(NatToString(|edges|))];
    assert |head| == h + 2;
    assert lines == head + (NodeLines(nodes) + EdgeLines(edges));
  }

  lemma ReadRenderedNodes(lines: seq<LineRead>, h: nat, nodes: seq<Node>, edges: seq<Edge>, comments: seq<string>)
    requires lines == Render(comments, nodes, edges) && h == |comments| + 1
    requires Writable(nodes)
    ensures ParseNodes(lines[h + 2..], |nodes|) == Ok(nodes)
  {
    var body := NodeLines(nodes) + EdgeLines(edges);
    RenderedBody(lines, h, nodes, edges, comments);
    ReadNodeLines(body, nodes, |nodes|);
    assert nodes[..|nodes|] == nodes;
  }

  lemma ReadRenderedEdges(lines: seq<LineRead>, h: nat, nodes: seq<Node>, edges: seq<Edge>, comments: seq<string>)
    requires lines == Render(comments, nodes, edges) && h == |comments| + 1
    requires !OffsetsOverflow(Srcs(edges), |nodes|)
    ensures ParseEdges(lines[h + 2..][|nodes|..], |edges|, |nodes|) == Ok(edges)
  {
    var body := NodeLines(nodes) + EdgeLines(edges);
    RenderedBody(lines, h, nodes, edges, comments);
    assert body[|nodes|..] == EdgeLines(edges);
    assert forall i :: 0 <= i < |edges| ==> AsI64(edges[i].src) <= |nodes| by {
      forall i | 0 <= i < |edges|
        ensures AsI64(edges[i].src) <= |nodes|
      {
        assert Srcs(edges)[i] == edges[i].src;
      }
    }
    ReadEdgeLines(EdgeLines(edges), edges, |edges|, |nodes|);
    assert edges[..|edges|] == edges;
  }

  lemma ParseGraphSteps(lines: seq<LineRead>, h: nat, nodes: seq<Node>, edges: seq<Edge>)
    requires h + 2 <= |lines|
    requires SkipHeader(lines, 0) == Ok(h)
    requires ReadCount(lines, h, EofAtNodeCount) == Ok(|nodes|)
    requires ReadCount(lines, h + 1, EofAtEdgeCount) == Ok(|edges|)
    requires ParseNodes(lines[h + 2..], |nodes|) == Ok(nodes)
    requires ParseEdges(lines[h + 2..][|nodes|..], |edges|, |nodes|) == Ok(edges)
    ensures ParseGraph(Opened(lines))
            == Ok(Graph(nodes, edges, AsWrittenOffsets(Srcs(edges), |nodes|), |nodes|, |edges|))
  {
    HeaderThenCounted(lines, h);
    CountsThenTables(lines, h, |nodes|, |edges|);
    PartsThenGraph(lines[h + 2..], nodes, edges);
  }

  lemma HeaderThenCounted(lines: seq<LineRead>, h: nat)
    requires SkipHeader(lines, 0) == Ok(h)
    ensures ParseGraph(Opened(lines)) == ParseCounted(lines, h)
  {
  }

  lemma CountsThenTables(lines: seq<LineRead>, h: nat, n: nat, m: nat)
    requires h + 2 <= |lines|
    requires ReadCount(lines, h, EofAtNodeCount) == Ok(n)
    requires ReadCount(lines, h + 1, EofAtEdgeCount) == Ok(m)
    ensures ParseCounted(lines, h) == ParseTables(lines[h + 2..], n, m)
  {
  }

  lemma PartsThenGraph(body: seq<LineRead>, nodes: seq<Node>, edges: seq<Edge>)
    requires ParseNodes(body, |nodes|) == Ok(nodes)
    requires ParseEdges(body[|nodes|..], |edges|, |nodes|) == Ok(edges)
    ensures ParseTables(body, |nodes|, |edges|)
            == Ok(Graph(nodes, edges, AsWrittenOffsets(Srcs(edges), |nodes|), |nodes|, |edges|))
  {
  }

  lemma {:induction false} SkipComments(lines: seq<LineRead>, comments: seq<string>, i: nat)
    requires i <= |comments| < |lines|
    requires forall k :: 0 <= k < |comments| ==> lines[k] == Line(comments[k]) && IsComment(comments[k])
    requires lines[|comments|] == Line("")
    ensures SkipHeader(lines, i) == Ok(|comments| + 1)
    decreases |comments| - i
  {
    if i < |comments| {
      SkipComments(lines, comments, i + 1);
    }
  }
}
