/** From source files to chunks: the splitters of ctx.py and the build loop, and why no line
    of a file is lost. Python's parser, the heading and declaration patterns and file reading
    are inputs. */
module ChunkCoverage {
  import opened Chunker
  import Text

  predicate Holds(s: Span, line: int) {
    s.start <= line <= s.end
  }

  predicate Covers(spans: seq<Span>, line: int) {
    exists i :: 0 <= i < |spans| && Holds(spans[i], line)
  }

  predicate CoversAll(spans: seq<Span>, n: int) {
    forall line :: 1 <= line <= n ==> Covers(spans, line)
  }

  // ----- gaps

  /** g is a maximal run of lines of 1..n outside the set. */
  predicate MaximalGap(g: Range, n: int, covered: set<int>) {
    && 1 <= g.start <= g.end <= n
    && (forall line :: g.start <= line <= g.end ==> line !in covered)
    && (g.start == 1 || g.start - 1 in covered)
    && (g.end == n || g.end + 1 in covered)
  }

  predicate GapsInOrder(gaps: seq<Range>) {
    forall i, j :: 0 <= i < j < |gaps| ==> gaps[i].end + 1 < gaps[j].start
  }

  /** MAIN: `contiguous_uncovered` returns exactly the maximal gaps, in order. */
  method ContiguousUncovered(n: nat, covered: set<int>) returns (gaps: seq<Range>)
    ensures forall g :: g in gaps <==> MaximalGap(g, n, covered)
    ensures GapsInOrder(gaps)
  {
    gaps := [];
    var start := 0;   // 0: no gap is open
    for line := 1 to n + 1
      invariant start == 0 || 1 <= start < line
      invariant start != 0 ==> forall k :: start <= k < line ==> k !in covered
      invariant start != 0 ==> start == 1 || start - 1 in covered
      invariant start == 0 && line > 1 ==> line - 1 in covered
      invariant forall g :: g in gaps ==> MaximalGap(g, n, covered) && g.end < line - 1 && g.end + 1 in covered
      invariant forall g :: g in gaps && start != 0 ==> g.end + 1 < start
      invariant forall g :: MaximalGap(g, n, covered) && g.end + 1 < line ==> g in gaps
      invariant GapsInOrder(gaps)
    {
      if line !in covered && start == 0 {
        start := line;
      }
      if line in covered && start != 0 {
        var gap := Range(start, line - 1);
        OneMoreGap(gaps, gap, n, covered, line);
        gaps := gaps + [gap];
        start := 0;
      }
      NoGapEnds(n, covered, line);
    }
    if start != 0 {
      var gap := Range(start, n);
      OneMoreGap(gaps, gap, n, covered, n + 1);
      gaps := gaps + [gap];
    } else {
      NoGapAtEnd(n, covered);
    }
  }

  /** All maximal gaps that end before the line, after one that ends just there. */
  lemma OneMoreGap(gaps: seq<Range>, gap: Range, n: int, covered: set<int>, line: int)
    requires forall g :: MaximalGap(g, n, covered) && g.end + 1 < line ==> g in gaps
    requires MaximalGap(gap, n, covered) && gap.end == line - 1
    ensures forall g :: MaximalGap(g, n, covered) && g.end + 1 < line + 1 ==> g in gaps + [gap]
  {
    forall g | MaximalGap(g, n, covered) && g.end + 1 < line + 1 ensures g in gaps + [gap] {
      if g.end == line - 1 {
        SameGap(g, gap, n, covered);
      }
    }
  }

  /** No maximal gap ends just before a line that is not covered. */
  lemma NoGapEnds(n: int, covered: set<int>, line: int)
    requires line <= n
    ensures line !in covered ==> forall g :: MaximalGap(g, n, covered) ==> g.end != line - 1
  {
  }

  lemma NoGapAtEnd(n: int, covered: set<int>)
    ensures n in covered ==> forall g :: MaximalGap(g, n, covered) ==> g.end != n
  {
    forall g | MaximalGap(g, n, covered) && n in covered ensures g.end != n {
      assert g.start <= g.end;
    }
  }

  /** Two maximal gaps with the same end are the same. */
  lemma SameGap(g: Range, h: Range, n: int, covered: set<int>)
    requires MaximalGap(g, n, covered) && MaximalGap(h, n, covered) && g.end == h.end
    ensures g == h
  {
    assert h.start > 1 ==> h.start - 1 in covered;
    assert g.start > 1 ==> g.start - 1 in covered;
  }

  // ----- Python

  datatype Method = Method(name: string, range: Range)

  /** A top-level node with the lines it spans, decorators included. */
  datatype Node =
    | FunctionDef(name: string, range: Range)
    | ClassDef(name: string, range: Range, methods: seq<Method>)
    | Other

  function MethodSpans(owner: string, ms: seq<Method>): seq<Span> {
    if ms == [] then []
    else
      var m := ms[|ms| - 1];
      MethodSpans(owner, ms[..|ms| - 1]) + [Span(m.range.start, m.range.end, owner + "." + m.name, "method")]
  }

  /** A small class is one span; a large one is its header and its methods, or its body. */
  function ClassSpans(name: string, r: Range, ms: seq<Method>): seq<Span> {
    if r.end - r.start + 1 <= MAX_CHUNK_LINES then [Span(r.start, r.end, name, "class")]
    else if ms == [] then [Span(r.start, r.end, name, "class-body")]
    else
      (if ms[0].range.start - 1 >= r.start then [Span(r.start, ms[0].range.start - 1, name, "class-header")] else [])
      + MethodSpans(name, ms)
  }

  function SpansOf(node: Node): seq<Span> {
    match node
    case FunctionDef(name, r) => [Span(r.start, r.end, name, "function")]
    case ClassDef(name, r, ms) => ClassSpans(name, r, ms)
    case Other => []
  }

  function NodeSpans(nodes: seq<Node>): seq<Span> {
    if nodes == [] then [] else NodeSpans(nodes[..|nodes| - 1]) + SpansOf(nodes[|nodes| - 1])
  }

  // ----- what the spans of the nodes are

  /** The span stands for the node: a function, a class of at most 110 lines, and of a larger class
      the lines before its first method, each method under the names of both, or, without methods,
      its body. */
  ghost predicate StandsFor(node: Node, s: Span) {
    match node
    case FunctionDef(name, r) => s == Span(r.start, r.end, name, "function")
    case ClassDef(name, r, ms) =>
      if r.end - r.start < 110 then s == Span(r.start, r.end, name, "class")
      else
        || (ms == [] && s == Span(r.start, r.end, name, "class-body"))
        || (ms != [] && ms[0].range.start > r.start && s == Span(r.start, ms[0].range.start - 1, name, "class-header"))
        || exists j :: 0 <= j < |ms| && s == Span(ms[j].range.start, ms[j].range.end, name + "." + ms[j].name, "method")
    case Other => false
  }

  /** How many spans a node has. */
  function SpanCount(node: Node): nat {
    match node
    case FunctionDef(_, _) => 1
    case ClassDef(_, r, ms) =>
      if r.end - r.start < 110 || ms == [] then 1 else |ms| + (if ms[0].range.start > r.start then 1 else 0)
    case Other => 0
  }

  function SpanCounts(nodes: seq<Node>): nat {
    if nodes == [] then 0 else SpanCounts(nodes[..|nodes| - 1]) + SpanCount(nodes[|nodes| - 1])
  }

  lemma {:induction false} MethodSpansAre(owner: string, ms: seq<Method>)
    ensures |MethodSpans(owner, ms)| == |ms|
    ensures forall j :: 0 <= j < |ms| ==>
              MethodSpans(owner, ms)[j] == Span(ms[j].range.start, ms[j].range.end, owner + "." + ms[j].name, "method")
  {
    if ms != [] {
      MethodSpansAre(owner, ms[..|ms| - 1]);
    }
  }

  lemma SpansOfExactly(node: Node, s: Span)
    ensures s in SpansOf(node) <==> StandsFor(node, s)
    ensures |SpansOf(node)| == SpanCount(node)
  {
    if node.ClassDef? {
      MethodSpansAre(node.name, node.methods);
      hide MethodSpans;
      var ms := MethodSpans(node.name, node.methods);
      if s in ms {
        var j :| 0 <= j < |ms| && ms[j] == s;
      }
      if j :| 0 <= j < |node.methods|
              && s == Span(node.methods[j].range.start, node.methods[j].range.end, node.name + "." + node.methods[j].name, "method") {
        assert ms[j] == s;
      }
    }
  }

  /** MAIN: the spans of a file's nodes are exactly those that stand for one, as many as there are. */
  lemma {:induction false} NodeSpansExactly(nodes: seq<Node>, s: Span)
    ensures s in NodeSpans(nodes) <==> exists i :: 0 <= i < |nodes| && StandsFor(nodes[i], s)
    ensures |NodeSpans(nodes)| == SpanCounts(nodes)
  {
    hide StandsFor, SpansOf, SpanCount;
    if nodes != [] {
      var last := |nodes| - 1;
      NodeSpansExactly(nodes[..last], s);
      SpansOfExactly(nodes[last], s);
      assert nodes == nodes[..last] + [nodes[last]];
      if i :| 0 <= i < |nodes| && StandsFor(nodes[i], s) {
        assert i < last ==> nodes[..last][i] == nodes[i];
      }
    }
  }

  /** The first class of the file that holds the line. */
  function Owner(nodes: seq<Node>, line: int): Text.Option<string> {
    if nodes == [] then Text.None
    else if nodes[0].ClassDef? && nodes[0].range.start <= line <= nodes[0].range.end then Text.Some(nodes[0].name)
    else Owner(nodes[1..], line)
  }

  /** The class at i holds the line and none before it does. */
  predicate FirstOwner(nodes: seq<Node>, line: int, i: int) {
    && 0 <= i < |nodes| && nodes[i].ClassDef? && nodes[i].range.start <= line <= nodes[i].range.end
    && forall j :: 0 <= j < i && nodes[j].ClassDef? ==> !(nodes[j].range.start <= line <= nodes[j].range.end)
  }

  lemma {:induction false} OwnerExactly(nodes: seq<Node>, line: int)
    ensures Owner(nodes, line).None? <==> forall i :: !FirstOwner(nodes, line, i)
    ensures forall i :: FirstOwner(nodes, line, i) ==> Owner(nodes, line) == Text.Some(nodes[i].name)
  {
    if nodes != [] {
      OwnerExactly(nodes[1..], line);
      var here := nodes[0].ClassDef? && nodes[0].range.start <= line <= nodes[0].range.end;
      if here {
        assert FirstOwner(nodes, line, 0);
      } else {
        forall i ensures FirstOwner(nodes, line, i) <==> FirstOwner(nodes[1..], line, i - 1) {
          LaterOwner(nodes, line, i);
        }
        if i :| FirstOwner(nodes[1..], line, i) {
          assert FirstOwner(nodes, line, i + 1);
        }
      }
    }
  }

  lemma LaterOwner(nodes: seq<Node>, line: int, i: int)
    requires nodes != [] && !(nodes[0].ClassDef? && nodes[0].range.start <= line <= nodes[0].range.end)
    ensures FirstOwner(nodes, line, i) <==> FirstOwner(nodes[1..], line, i - 1)
  {
    if FirstOwner(nodes[1..], line, i - 1) {
      forall j | 0 <= j < i && nodes[j].ClassDef? ensures !(nodes[j].range.start <= line <= nodes[j].range.end) {
        assert j > 0 ==> nodes[j] == nodes[1..][j - 1];
      }
    }
  }

  function GapSpan(nodes: seq<Node>, g: Range): Span {
    match Owner(nodes, g.start)
    case Some(name) => Span(g.start, g.end, name + ".<body>", "class-body")
    case None => Span(g.start, g.end, "<module>", "module")
  }

  /** The set holds exactly the lines of the spans. */
  ghost predicate LinesOf(covered: set<int>, spans: seq<Span>) {
    forall line :: line in covered <==> Covers(spans, line)
  }

  lemma CoversAppend(a: seq<Span>, b: seq<Span>, line: int)
    ensures Covers(a + b, line) <==> Covers(a, line) || Covers(b, line)
  {
    if Covers(a, line) {
      var i :| 0 <= i < |a| && Holds(a[i], line);
      assert Holds((a + b)[i], line);
    }
    if Covers(b, line) {
      var i :| 0 <= i < |b| && Holds(b[i], line);
      assert Holds((a + b)[|a| + i], line);
    }
  }

  /** The loop variables of `split_python` while it walks the nodes. */
  method Emit(spans: seq<Span>, covered: set<int>, s: Span) returns (spans': seq<Span>, covered': set<int>)
    requires LinesOf(covered, spans)
    ensures spans' == spans + [s] && LinesOf(covered', spans')
  {
    spans' := spans + [s];
    covered' := covered + Text.LineSet(s.start, s.end);
    forall line ensures line in covered' <==> Covers(spans', line) {
      CoversAppend(spans, [s], line);
      assert Covers([s], line) <==> Holds(s, line) by {
        assert [s][0] == s;
      }
    }
  }

  method EmitMethods(owner: string, ms: seq<Method>, spans: seq<Span>, covered: set<int>)
    returns (spans': seq<Span>, covered': set<int>)
    requires LinesOf(covered, spans)
    ensures spans' == spans + MethodSpans(owner, ms) && LinesOf(covered', spans')
  {
    spans', covered' := spans, covered;
    for i := 0 to |ms|
      invariant spans' == spans + MethodSpans(owner, ms[..i]) && LinesOf(covered', spans')
    {
      assert ms[..i + 1][..i] == ms[..i];
      spans', covered' := Emit(spans', covered', Span(ms[i].range.start, ms[i].range.end, owner + "." + ms[i].name, "method"));
    }
    assert ms[..|ms|] == ms;
  }

  method EmitNode(node: Node, spans: seq<Span>, covered: set<int>) returns (spans': seq<Span>, covered': set<int>)
    requires LinesOf(covered, spans)
    ensures spans' == spans + SpansOf(node) && LinesOf(covered', spans')
  {
    hide LinesOf;
    spans', covered' := spans, covered;
    match node {
      case FunctionDef(name, r) =>
        spans', covered' := Emit(spans, covered, Span(r.start, r.end, name, "function"));
      case ClassDef(name, r, ms) =>
        if r.end - r.start + 1 <= MAX_CHUNK_LINES {
          spans', covered' := Emit(spans, covered, Span(r.start, r.end, name, "class"));
        } else {
          if ms != [] {
            var headerEnd := ms[0].range.start - 1;
            if headerEnd >= r.start {
              spans', covered' := Emit(spans', covered', Span(r.start, headerEnd, name, "class-header"));
            }
          } else {
            spans', covered' := Emit(spans', covered', Span(r.start, r.end, name, "class-body"));
          }
          spans', covered' := EmitMethods(name, ms, spans', covered');
        }
      case Other =>
    }
  }

  /** The span is named after the first class that holds its first line, else after the module. */
  ghost predicate NamedByOwner(nodes: seq<Node>, s: Span) {
    && (forall i :: FirstOwner(nodes, s.start, i) ==> s.symbol == nodes[i].name + ".<body>" && s.kind == "class-body")
    && ((forall i :: !FirstOwner(nodes, s.start, i)) ==> s.symbol == "<module>" && s.kind == "module")
  }

  lemma GapIsNamed(nodes: seq<Node>, g: Range)
    ensures var s := GapSpan(nodes, g); NamedByOwner(nodes, s) && s.start == g.start && s.end == g.end
  {
    hide FirstOwner;
    OwnerExactly(nodes, g.start);
  }

  /** A span that stands for a maximal run of lines no node holds. */
  ghost predicate GapOf(nodes: seq<Node>, n: int, s: Span) {
    && NamedByOwner(nodes, s) && 1 <= s.start <= s.end <= n
    && (forall line :: s.start <= line <= s.end ==> !Covers(NodeSpans(nodes), line))
    && (s.start > 1 ==> Covers(NodeSpans(nodes), s.start - 1))
    && (s.end < n ==> Covers(NodeSpans(nodes), s.end + 1))
  }

  /** The spans of the gaps. */
  method GapSpans(nodes: seq<Node>, n: nat, covered: set<int>) returns (spans: seq<Span>)
    requires LinesOf(covered, NodeSpans(nodes))
    ensures forall i :: 0 <= i < |spans| ==> GapOf(nodes, n, spans[i])
    ensures forall line :: 1 <= line <= n && line !in covered ==> Covers(spans, line)
    ensures forall i, j :: 0 <= i < j < |spans| ==> spans[i].end + 1 < spans[j].start
  {
    hide NodeSpans, Covers, NamedByOwner;
    var gaps := ContiguousUncovered(n, covered);
    spans := [];
    for i := 0 to |gaps|
      invariant |spans| == i
      invariant forall j :: 0 <= j < i ==> spans[j] == GapSpan(nodes, gaps[j])
    {
      spans := spans + [GapSpan(nodes, gaps[i])];
    }
    forall i | 0 <= i < |spans| ensures GapOf(nodes, n, spans[i]) {
      assert gaps[i] in gaps;
      assert MaximalGap(gaps[i], n, covered);
      GapIsNamed(nodes, gaps[i]);
    }
    forall line | 1 <= line <= n && line !in covered ensures Covers(spans, line) {
      var g := GapAround(n, covered, line);
      var j :| 0 <= j < |gaps| && gaps[j] == g;
      GapIsNamed(nodes, gaps[j]);
      CoversAt(spans, j, line);
    }
  }

  lemma CoversAt(spans: seq<Span>, i: nat, line: int)
    requires i < |spans| && Holds(spans[i], line)
    ensures Covers(spans, line)
  {
  }

  /** MAIN: `split_python` before its final sort: the spans of the nodes, then exactly one span
      for each maximal run of lines no node holds; together they hold every line. */
  method SplitPython(nodes: seq<Node>, n: nat) returns (spans: seq<Span>, k: nat)
    ensures k <= |spans| && spans[..k] == NodeSpans(nodes) && k == SpanCounts(nodes)
    ensures forall s :: s in spans[..k] <==> exists i :: 0 <= i < |nodes| && StandsFor(nodes[i], s)
    ensures forall i :: k <= i < |spans| ==> GapOf(nodes, n, spans[i])
    ensures forall i, j :: k <= i < j < |spans| ==> spans[i].end + 1 < spans[j].start
    ensures CoversAll(spans, n)
  {
    hide GapOf, StandsFor;
    spans := [];
    var covered: set<int> := {};
    for i := 0 to |nodes|
      invariant spans == NodeSpans(nodes[..i]) && LinesOf(covered, spans)
    {
      assert nodes[..i + 1][..i] == nodes[..i];
      spans, covered := EmitNode(nodes[i], spans, covered);
    }
    assert nodes[..|nodes|] == nodes;
    k := |spans|;
    forall s ensures s in NodeSpans(nodes) <==> exists i :: 0 <= i < |nodes| && StandsFor(nodes[i], s) {
      NodeSpansExactly(nodes, s);
    }
    NodeSpansExactly(nodes, Span(0, 0, "", ""));
    ghost var emitted := spans;
    var gaps := GapSpans(nodes, n, covered);
    spans := spans + gaps;
    forall line | 1 <= line <= n ensures Covers(spans, line) {
      CoversAppend(emitted, gaps, line);
    }
  }

  lemma GapAround(n: int, covered: set<int>, line: int) returns (g: Range)
    requires 1 <= line <= n && line !in covered
    ensures MaximalGap(g, n, covered) && g.start <= line <= g.end
  {
    var a, b := line, line;
    while a > 1 && a - 1 !in covered
      invariant 1 <= a <= line && forall k :: a <= k <= line ==> k !in covered
    {
      a := a - 1;
    }
    while b < n && b + 1 !in covered
      invariant line <= b <= n && forall k :: line <= k <= b ==> k !in covered
      decreases n - b
    {
      b := b + 1;
    }
    g := Range(a, b);
  }

  // ----- Markdown and TypeScript

  datatype Mark = Mark(line: int, name: string, kind: string)

  predicate MarksOf(marks: seq<Mark>, n: int) {
    && (forall i :: 0 <= i < |marks| ==> 1 <= marks[i].line <= n)
    && (forall i, j :: 0 <= i < j < |marks| ==> marks[i].line < marks[j].line)
  }

  /** Consecutive spans from line 1 to line n. */
  predicate Partition(spans: seq<Span>, n: int) {
    && spans != [] && spans[0].start == 1 && spans[|spans| - 1].end == n
    && (forall i :: 0 <= i < |spans| ==> spans[i].start <= spans[i].end)
    && (forall i :: 0 <= i < |spans| - 1 ==> spans[i + 1].start == spans[i].end + 1)
  }

  /** The span of a mark: up to the line before the next one. */
  function MarkSpan(marks: seq<Mark>, i: nat, n: int): Span
    requires i < |marks|
  {
    Span(marks[i].line, if i + 1 < |marks| then marks[i + 1].line - 1 else n, marks[i].name, marks[i].kind)
  }

  /** MAIN: `split_markdown` and `split_ts_like`, whose headings or declarations are marks: a
      partition of the lines, one span per mark, starting at it with its name. */
  method SplitByMarks(marks: seq<Mark>, n: nat, whole: Mark, preamble: Mark) returns (spans: seq<Span>)
    requires MarksOf(marks, n)
    ensures n == 0 ==> spans == []
    ensures n > 0 ==> Partition(spans, n)
    ensures n > 0 && marks == [] ==> spans == [Span(1, n, whole.name, whole.kind)]
    ensures n > 0 && marks != [] ==>
              var before := if marks[0].line > 1 then 1 else 0;
              && |spans| == before + |marks|
              && (before == 1 ==> spans[0] == Span(1, marks[0].line - 1, preamble.name, preamble.kind))
              && forall k :: before <= k < |spans| ==>
                   && spans[k].start == marks[k - before].line
                   && spans[k].symbol == marks[k - before].name && spans[k].kind == marks[k - before].kind
  {
    hide Partition;
    spans := [];
    if n == 0 {
      return;
    }
    if marks == [] {
      WholePartition(n, whole);
      return [Span(1, n, whole.name, whole.kind)];
    }
    if marks[0].line > 1 {
      spans := [Span(1, marks[0].line - 1, preamble.name, preamble.kind)];
    }
    ghost var before := |spans|;
    for i := 0 to |marks|
      invariant |spans| == before + i
      invariant before == 1 ==> spans[0] == Span(1, marks[0].line - 1, preamble.name, preamble.kind)
      invariant forall k :: before <= k < |spans| ==> spans[k] == MarkSpan(marks, k - before, n)
    {
      var end := if i + 1 < |marks| then marks[i + 1].line - 1 else n;
      var last := Max(marks[i].line, end);
      assert last == end;
      spans := spans + [Span(marks[i].line, last, marks[i].name, marks[i].kind)];
    }
    MarksPartition(spans, marks, n, before);
  }

  lemma WholePartition(n: nat, whole: Mark)
    requires n > 0
    ensures Partition([Span(1, n, whole.name, whole.kind)], n)
  {
  }

  lemma MarksPartition(spans: seq<Span>, marks: seq<Mark>, n: nat, before: nat)
    requires MarksOf(marks, n) && marks != [] && before == (if marks[0].line > 1 then 1 else 0)
    requires |spans| == before + |marks|
    requires before == 1 ==> spans[0].start == 1 && spans[0].end == marks[0].line - 1
    requires forall k :: before <= k < |spans| ==> spans[k] == MarkSpan(marks, k - before, n)
    ensures Partition(spans, n)
  {
    forall i | 0 <= i < |spans| ensures spans[i].start <= spans[i].end {
      if i >= before {
        assert spans[i] == MarkSpan(marks, i - before, n);
      }
    }
    forall i | 0 <= i < |spans| - 1 ensures spans[i + 1].start == spans[i].end + 1 {
      assert spans[i + 1] == MarkSpan(marks, i + 1 - before, n);
    }
  }

  lemma {:induction false} PartitionCovers(spans: seq<Span>, n: int)
    requires Partition(spans, n)
    ensures CoversAll(spans, n)
  {
    forall line | 1 <= line <= n ensures Covers(spans, line) {
      PartitionHolds(spans, n, |spans| - 1, line);
    }
  }

  lemma {:induction false} PartitionHolds(spans: seq<Span>, n: int, k: nat, line: int)
    requires Partition(spans, n) && k < |spans| && 1 <= line <= spans[k].end
    ensures Covers(spans, line)
  {
    if line < spans[k].start {
      PartitionHolds(spans, n, k - 1, line);
    } else {
      assert Holds(spans[k], line);
    }
  }

  // ----- the build loop

  function Min(a: int, b: int): int {
    if a <= b then a else b
  }

  function Max(a: int, b: int): int {
    if a >= b then a else b
  }

  /** A raw span brought into the lines 1..n. */
  function Clamp(s: Span, n: int): (r: Span)
    requires n >= 1
    ensures 1 <= r.start <= r.end <= n
    ensures forall line :: 1 <= line <= n && Holds(s, line) ==> Holds(r, line)
  {
    var start := Max(1, Min(s.start, n));
    Span(start, Max(start, Min(s.end, n)), s.symbol, s.kind)
  }

  /** Inside the file that is the part of the span that lies in it. */
  lemma ClampExactly(s: Span, n: int, line: int)
    requires n >= 1 && s.start <= s.end && s.start <= n && 1 <= s.end
    ensures Holds(Clamp(s, n), line) <==> 1 <= line <= n && Holds(s, line)
    ensures Clamp(s, n).symbol == s.symbol && Clamp(s, n).kind == s.kind
  {
  }

  function Labelled(rs: seq<Range>, symbol: string, kind: string): (r: seq<Span>)
    ensures |r| == |rs|
    ensures forall i :: 0 <= i < |r| ==> r[i] == Span(rs[i].start, rs[i].end, symbol, kind)
  {
    seq(|rs|, i requires 0 <= i < |rs| => Span(rs[i].start, rs[i].end, symbol, kind))
  }

  /** The chunks of a raw span. */
  function ChunksOf(rel: string, lines: seq<string>, raw: Span): (r: seq<Span>)
    requires lines != []
    ensures forall i :: 0 <= i < |r| ==> 1 <= r[i].start <= r[i].end <= |lines|
  {
    var s := Clamp(raw, |lines|);
    var body := MaxBody(|Header(rel, s.symbol, s.kind)|);
    SplitFollows(lines, s.start, s.end, body);
    Labelled(Split(lines, s.start, s.end, body), s.symbol, s.kind)
  }

  function AllChunks(rel: string, lines: seq<string>, raws: seq<Span>): (r: seq<Span>)
    requires lines != []
    ensures forall i :: 0 <= i < |r| ==> 1 <= r[i].start <= r[i].end <= |lines|
  {
    if raws == [] then []
    else AllChunks(rel, lines, raws[..|raws| - 1]) + ChunksOf(rel, lines, raws[|raws| - 1])
  }

  const MIN_TEXT: nat := 32

  /** A chunk is kept when its text has at least MIN_TEXT characters once stripped. */
  predicate Kept(rel: string, lines: seq<string>, c: Span)
    requires 1 <= c.start <= c.end <= |lines|
  {
    |Text.Strip(Text.Ascii(ChunkText(rel, lines, c.symbol, c.kind, Range(c.start, c.end))))| >= MIN_TEXT
  }

  /** So it is when the text without the white space around it has at least 32 characters. */
  lemma KeptExactly(rel: string, lines: seq<string>, c: Span)
    requires 1 <= c.start <= c.end <= |lines|
    ensures var text := Text.Ascii(ChunkText(rel, lines, c.symbol, c.kind, Range(c.start, c.end)));
            Kept(rel, lines, c) <==> exists pre, core, post :: Text.StrippedOf(text, pre, core, post) && |core| >= 32
  {
    hide Text.Strip, Text.StrippedOf;
    var text := Text.Ascii(ChunkText(rel, lines, c.symbol, c.kind, Range(c.start, c.end)));
    Text.StripExactly(text, Text.Strip(text));
    if pre, core, post :| Text.StrippedOf(text, pre, core, post) && |core| >= 32 {
      Text.StripExactly(text, core);
    }
  }

  function KeepOnly(rel: string, lines: seq<string>, cs: seq<Span>): (r: seq<Span>)
    requires forall i :: 0 <= i < |cs| ==> 1 <= cs[i].start <= cs[i].end <= |lines|
  {
    if cs == [] then []
    else
      var last := cs[|cs| - 1];
      KeepOnly(rel, lines, cs[..|cs| - 1]) + (if Kept(rel, lines, last) then [last] else [])
  }

  lemma {:induction false} KeepOnlyMembers(rel: string, lines: seq<string>, cs: seq<Span>)
    requires forall i :: 0 <= i < |cs| ==> 1 <= cs[i].start <= cs[i].end <= |lines|
    ensures forall c :: c in KeepOnly(rel, lines, cs) <==>
                        c in cs && 1 <= c.start <= c.end <= |lines| && Kept(rel, lines, c)
  {
    hide Kept;
    if cs != [] {
      KeepOnlyMembers(rel, lines, cs[..|cs| - 1]);
      assert cs == cs[..|cs| - 1] + [cs[|cs| - 1]];
    }
  }

  /** `chunk_text` raises for the chunk. */
  predicate Raises(rel: string, lines: seq<string>, c: Span)
    requires 1 <= c.start <= c.end <= |lines|
  {
    TooLong(rel, lines, c.symbol, c.kind, Range(c.start, c.end))
  }

  predicate NoneRaises(rel: string, lines: seq<string>, cs: seq<Span>)
    requires forall i :: 0 <= i < |cs| ==> 1 <= cs[i].start <= cs[i].end <= |lines|
  {
    forall i :: 0 <= i < |cs| ==> !Raises(rel, lines, cs[i])
  }

  /** The inner loop of `build_chunks`: the chunks of one span that are long enough; not `ok`
      when `chunk_text` raises. */
  method KeepParts(rel: string, lines: seq<string>, cs: seq<Span>) returns (ok: bool, kept: seq<Span>)
    requires forall i :: 0 <= i < |cs| ==> 1 <= cs[i].start <= cs[i].end <= |lines|
    ensures ok <==> NoneRaises(rel, lines, cs)
    ensures ok ==> kept == KeepOnly(rel, lines, cs)
  {
    hide Kept, Raises;
    kept := [];
    for j := 0 to |cs|
      invariant NoneRaises(rel, lines, cs[..j])
      invariant kept == KeepOnly(rel, lines, cs[..j])
    {
      assert cs[..j + 1][..j] == cs[..j];
      if Raises(rel, lines, cs[j]) {
        return false, kept;
      }
      if Kept(rel, lines, cs[j]) {
        kept := kept + [cs[j]];
      }
    }
    assert cs[..|cs|] == cs;
    ok := true;
  }

  /** The loop of `build_chunks` over the raw spans of one file; not `ok` when `chunk_text`
      raises for a chunk. */
  method BuildFile(rel: string, lines: seq<string>, raws: seq<Span>) returns (ok: bool, chunks: seq<Span>)
    requires lines != []
    ensures ok <==> NoneRaises(rel, lines, AllChunks(rel, lines, raws))
    ensures ok ==> chunks == KeepOnly(rel, lines, AllChunks(rel, lines, raws))
  {
    hide KeepOnly, Split, NoneRaises;
    chunks := [];
    NothingKept(rel, lines);
    NothingRaises(rel, lines);
    for i := 0 to |raws|
      invariant NoneRaises(rel, lines, AllChunks(rel, lines, raws[..i]))
      invariant chunks == KeepOnly(rel, lines, AllChunks(rel, lines, raws[..i]))
    {
      assert raws[..i + 1][..i] == raws[..i];
      var span := Clamp(raws[i], |lines|);
      var parts := SplitSpanToLimits(rel, lines, span);
      var mine := Labelled(parts, span.symbol, span.kind);
      assert mine == ChunksOf(rel, lines, raws[i]);
      var kept;
      ok, kept := KeepParts(rel, lines, mine);
      RaisesAppend(rel, lines, AllChunks(rel, lines, raws[..i]), mine);
      if !ok {
        RaisesLater(rel, lines, raws, i + 1);
        return;
      }
      KeepAppend(rel, lines, AllChunks(rel, lines, raws[..i]), mine);
      chunks := chunks + kept;
    }
    assert raws[..|raws|] == raws;
    ok := true;
  }

  lemma RaisesAppend(rel: string, lines: seq<string>, a: seq<Span>, b: seq<Span>)
    requires forall i :: 0 <= i < |a| ==> 1 <= a[i].start <= a[i].end <= |lines|
    requires forall i :: 0 <= i < |b| ==> 1 <= b[i].start <= b[i].end <= |lines|
    ensures NoneRaises(rel, lines, a + b) <==> NoneRaises(rel, lines, a) && NoneRaises(rel, lines, b)
  {
    hide Raises;
    if NoneRaises(rel, lines, a + b) {
      forall i | 0 <= i < |a| ensures !Raises(rel, lines, a[i]) {
        assert (a + b)[i] == a[i];
      }
      forall i | 0 <= i < |b| ensures !Raises(rel, lines, b[i]) {
        assert (a + b)[|a| + i] == b[i];
      }
    }
  }

  lemma {:induction false} RaisesLater(rel: string, lines: seq<string>, raws: seq<Span>, n: nat)
    requires lines != [] && n <= |raws| && !NoneRaises(rel, lines, AllChunks(rel, lines, raws[..n]))
    ensures !NoneRaises(rel, lines, AllChunks(rel, lines, raws))
    decreases |raws|
  {
    hide NoneRaises, ChunksOf;
    if n < |raws| {
      var last := |raws| - 1;
      assert raws[..last][..n] == raws[..n];
      RaisesLater(rel, lines, raws[..last], n);
      RaisesAppend(rel, lines, AllChunks(rel, lines, raws[..last]), ChunksOf(rel, lines, raws[last]));
    } else {
      assert raws[..n] == raws;
    }
  }

  /** With headers of at most MAX_CHUNK_CHARS - 255 characters the build never raises. */
  lemma {:induction false} ShortHeadersBuild(rel: string, lines: seq<string>, raws: seq<Span>)
    requires lines != []
    requires forall i :: 0 <= i < |raws| ==> |Header(rel, raws[i].symbol, raws[i].kind)| <= MAX_CHUNK_CHARS - 255
    ensures NoneRaises(rel, lines, AllChunks(rel, lines, raws))
  {
    hide NoneRaises, ChunksOf, Header;
    if raws == [] {
      NothingRaises(rel, lines);
    } else {
      var last := |raws| - 1;
      ShortHeadersBuild(rel, lines, raws[..last]);
      ShortHeader(rel, lines, raws[last]);
      RaisesAppend(rel, lines, AllChunks(rel, lines, raws[..last]), ChunksOf(rel, lines, raws[last]));
    }
  }

  lemma NothingRaises(rel: string, lines: seq<string>)
    ensures NoneRaises(rel, lines, [])
  {
  }

  lemma ShortHeader(rel: string, lines: seq<string>, raw: Span)
    requires lines != [] && |Header(rel, raw.symbol, raw.kind)| <= MAX_CHUNK_CHARS - 255
    ensures NoneRaises(rel, lines, ChunksOf(rel, lines, raw))
  {
    hide Header, TooLong, Split;
    var s := Clamp(raw, |lines|);
    var body := MaxBody(|Header(rel, s.symbol, s.kind)|);
    var cs := Split(lines, s.start, s.end, body);
    AssertionUnreachable(rel, s.symbol, s.kind);
    var chunks := ChunksOf(rel, lines, raw);
    forall i | 0 <= i < |chunks| ensures !Raises(rel, lines, chunks[i]) {
      assert NthChunk(lines, s.start, s.end, body, i) == cs[i];
    }
  }

  lemma NothingKept(rel: string, lines: seq<string>)
    ensures KeepOnly(rel, lines, []) == []
  {
  }

  lemma {:induction false} KeepAppend(rel: string, lines: seq<string>, a: seq<Span>, b: seq<Span>)
    requires forall i :: 0 <= i < |a| ==> 1 <= a[i].start <= a[i].end <= |lines|
    requires forall i :: 0 <= i < |b| ==> 1 <= b[i].start <= b[i].end <= |lines|
    ensures KeepOnly(rel, lines, a + b) == KeepOnly(rel, lines, a) + KeepOnly(rel, lines, b)
  {
    hide Kept;
    if b == [] {
      assert a + b == a;
    } else {
      assert (a + b)[..|a + b| - 1] == a + b[..|b| - 1];
      KeepAppend(rel, lines, a, b[..|b| - 1]);
    }
  }

  lemma {:induction false} ChunkHolds(rel: string, lines: seq<string>, raw: Span, line: int)
    requires lines != [] && 1 <= line <= |lines| && Holds(raw, line)
    ensures Covers(ChunksOf(rel, lines, raw), line)
  {
    hide Split, Header;
    var s := Clamp(raw, |lines|);
    var cs := Split(lines, s.start, s.end, MaxBody(|Header(rel, s.symbol, s.kind)|));
    EveryLineCovered(lines, s.start, s.end, MaxBody(|Header(rel, s.symbol, s.kind)|), line);
    var i := CoveredBy(cs, line);
    assert Holds(ChunksOf(rel, lines, raw)[i], line);
  }

  lemma {:induction false} CoveredBy(cs: seq<Range>, line: int) returns (i: nat)
    requires Covering(cs, line) >= 1
    ensures i < |cs| && cs[i].start <= line <= cs[i].end
  {
    if cs[0].start <= line <= cs[0].end {
      i := 0;
    } else {
      i := CoveredBy(cs[1..], line);
      i := i + 1;
    }
  }

  lemma KeptCovers(rel: string, lines: seq<string>, all: seq<Span>, line: int)
    requires forall i :: 0 <= i < |all| ==> 1 <= all[i].start <= all[i].end <= |lines|
    ensures Covers(KeepOnly(rel, lines, all), line) <==>
            exists i :: 0 <= i < |all| && Holds(all[i], line) && Kept(rel, lines, all[i])
  {
    hide Kept, Holds;
    var kept := KeepOnly(rel, lines, all);
    KeepOnlyMembers(rel, lines, all);
    if Covers(kept, line) {
      var j :| 0 <= j < |kept| && Holds(kept[j], line);
      assert kept[j] in kept;
      var k :| 0 <= k < |all| && all[k] == kept[j];
      assert Holds(all[k], line) && Kept(rel, lines, all[k]);
    }
    if k :| 0 <= k < |all| && Holds(all[k], line) && Kept(rel, lines, all[k]) {
      assert all[k] in kept;
      var j :| 0 <= j < |kept| && kept[j] == all[k];
      assert Holds(kept[j], line);
    }
  }

  // ----- deduplication and the final order

  /** The values of the dict that `build_chunks` fills: the first place of every chunk. */
  function Deduplicated(cs: seq<Span>): seq<Span> {
    if cs == [] then []
    else
      var rest := Deduplicated(cs[..|cs| - 1]);
      if cs[|cs| - 1] in rest then rest else rest + [cs[|cs| - 1]]
  }

  /** The loop that fills it. */
  method Deduplicate(cs: seq<Span>) returns (unique: seq<Span>)
    ensures unique == Deduplicated(cs)
  {
    unique := [];
    for i := 0 to |cs|
      invariant unique == Deduplicated(cs[..i])
    {
      assert cs[..i + 1][..i] == cs[..i];
      if cs[i] !in unique {
        unique := unique + [cs[i]];
      }
    }
    assert cs[..|cs|] == cs;
  }

  lemma {:induction false} DeduplicatedMembers(cs: seq<Span>)
    ensures forall c :: c in Deduplicated(cs) <==> c in cs
    ensures forall i, j :: 0 <= i < j < |Deduplicated(cs)| ==> Deduplicated(cs)[i] != Deduplicated(cs)[j]
  {
    if cs != [] {
      DeduplicatedMembers(cs[..|cs| - 1]);
      assert cs == cs[..|cs| - 1] + [cs[|cs| - 1]];
    }
  }

  /** Chunks that come later take places behind: every chunk has its first place. */
  lemma {:induction false} DeduplicatedGrows(a: seq<Span>, b: seq<Span>)
    ensures Deduplicated(a) <= Deduplicated(a + b)
  {
    if b == [] {
      assert a + b == a;
    } else {
      assert (a + b)[..|a + b| - 1] == a + b[..|b| - 1];
      DeduplicatedGrows(a, b[..|b| - 1]);
    }
  }

  lemma SameMembersCover(a: seq<Span>, b: seq<Span>, line: int)
    requires forall c :: c in a <==> c in b
    ensures Covers(a, line) <==> Covers(b, line)
  {
    if Covers(a, line) {
      var i :| 0 <= i < |a| && Holds(a[i], line);
      assert a[i] in b;
    }
    if Covers(b, line) {
      var i :| 0 <= i < |b| && Holds(b[i], line);
      assert b[i] in a;
    }
  }

  /** MAIN: when the raw spans hold every line, so do the chunks; after the filter, the
      deduplication and any final order, a line is lost exactly when every chunk that holds it
      is too short. */
  lemma NoLineLost(rel: string, lines: seq<string>, raws: seq<Span>, final: seq<Span>, line: int)
    requires lines != [] && CoversAll(raws, |lines|) && 1 <= line <= |lines|
    requires multiset(final) == multiset(Deduplicated(KeepOnly(rel, lines, AllChunks(rel, lines, raws))))
    ensures var all := AllChunks(rel, lines, raws);
            && Covers(all, line)
            && (Covers(final, line) <==>
                exists i :: 0 <= i < |all| && Holds(all[i], line) && Kept(rel, lines, all[i]))
  {
    hide Kept, ChunksOf, AllChunks, KeepOnly, Holds, Deduplicated;
    assert Covers(raws, line);
    var i :| 0 <= i < |raws| && Holds(raws[i], line);
    ChunkHolds(rel, lines, raws[i], line);
    AllHold(rel, lines, raws, i, line);
    var kept := KeepOnly(rel, lines, AllChunks(rel, lines, raws));
    KeptCovers(rel, lines, AllChunks(rel, lines, raws), line);
    DeduplicatedMembers(kept);
    SameElements(final, Deduplicated(kept));
    SameMembersCover(final, kept, line);
  }

  /** The final sort of `split_python` keeps what its spans hold. */
  lemma ReorderedCovers(a: seq<Span>, b: seq<Span>, n: int)
    requires multiset(a) == multiset(b)
    ensures CoversAll(a, n) <==> CoversAll(b, n)
  {
    hide Covers;
    SameElements(a, b);
    forall line ensures Covers(a, line) <==> Covers(b, line) {
      SameMembersCover(a, b, line);
    }
  }

  lemma SameElements(a: seq<Span>, b: seq<Span>)
    requires multiset(a) == multiset(b)
    ensures forall c :: c in a <==> c in b
  {
    forall c ensures c in a <==> c in b {
      assert c in a <==> c in multiset(a);
      assert c in b <==> c in multiset(b);
    }
  }

  lemma {:induction false} AllHold(rel: string, lines: seq<string>, raws: seq<Span>, i: nat, line: int)
    requires lines != [] && i < |raws| && Covers(ChunksOf(rel, lines, raws[i]), line)
    ensures Covers(AllChunks(rel, lines, raws), line)
  {
    hide ChunksOf;
    var last := |raws| - 1;
    CoversAppend(AllChunks(rel, lines, raws[..last]), ChunksOf(rel, lines, raws[last]), line);
    if i < last {
      AllHold(rel, lines, raws[..last], i, line);
    }
  }
}
