/** Splitting a span of lines into chunks under a line limit and a character limit, with a
    small overlap (`split_span_to_limits` and `chunk_text` of ctx.py). Lines count from 1. */
module Chunker {

  const MAX_CHUNK_LINES: nat := 110
  const WINDOW_OVERLAP: nat := 10
  const MAX_CHUNK_CHARS: nat := 5500

  datatype Span = Span(start: int, end: int, symbol: string, kind: string)

  /** A chunk of a span: first and last line. */
  datatype Range = Range(start: int, end: int)

  function Header(rel: string, symbol: string, kind: string): string {
    "# " + rel + " :: " + symbol + " [" + kind + "]\n"
  }

  function MaxBody(header: nat): nat {
    if header + 256 <= MAX_CHUNK_CHARS then MAX_CHUNK_CHARS - header else 256
  }

  /** The characters of the lines a..b with their line ends. */
  function BodyChars(lines: seq<string>, a: int, b: int): nat
    requires 1 <= a && b <= |lines|
    decreases b - a
  {
    if b < a then 0 else BodyChars(lines, a, b - 1) + |lines[b - 1]| + 1
  }

  /** The last line of the chunk that starts at a: the line limit, then lowered until the
      body fits or one line is left. */
  function ShrinkEnd(lines: seq<string>, a: int, e: int, maxBody: nat): (r: int)
    requires 1 <= a <= e <= |lines|
    ensures a <= r <= e
    decreases e - a
  {
    if e == a || BodyChars(lines, a, e) <= maxBody then e else ShrinkEnd(lines, a, e - 1, maxBody)
  }

  function ChunkEnd(lines: seq<string>, a: int, hardEnd: int, maxBody: nat): (r: int)
    requires 1 <= a <= hardEnd <= |lines|
    ensures a <= r <= hardEnd
  {
    ShrinkEnd(lines, a, if a + MAX_CHUNK_LINES - 1 <= hardEnd then a + MAX_CHUNK_LINES - 1 else hardEnd, maxBody)
  }

  function NextStart(a: int, e: int): int {
    if e - WINDOW_OVERLAP + 2 >= a + 1 then e - WINDOW_OVERLAP + 2 else a + 1
  }

  function Split(lines: seq<string>, a: int, hardEnd: int, maxBody: nat): seq<Range>
    requires 1 <= a <= hardEnd <= |lines|
    decreases hardEnd - a
  {
    var e := ChunkEnd(lines, a, hardEnd, maxBody);
    [Range(a, e)] + (if e >= hardEnd then [] else Split(lines, NextStart(a, e), hardEnd, maxBody))
  }

  lemma SplitStep(lines: seq<string>, a: int, hardEnd: int, maxBody: nat, chunks: seq<Range>)
    requires 1 <= a <= hardEnd <= |lines|
    ensures var e := ChunkEnd(lines, a, hardEnd, maxBody);
            chunks + Split(lines, a, hardEnd, maxBody) ==
            chunks + [Range(a, e)] + (if e >= hardEnd then [] else Split(lines, NextStart(a, e), hardEnd, maxBody))
  {
    hide ChunkEnd;
  }

  /** `split_span_to_limits`. */
  method SplitSpanToLimits(rel: string, lines: seq<string>, span: Span) returns (chunks: seq<Range>)
    requires 1 <= span.start && span.end <= |lines|
    ensures span.end < span.start ==> chunks == []
    ensures span.end >= span.start ==>
              chunks == Split(lines, span.start, span.end, MaxBody(|Header(rel, span.symbol, span.kind)|))
  {
    hide Split, Header, BodyChars;
    if span.end < span.start {
      return [];
    }
    var header := Header(rel, span.symbol, span.kind);
    var maxBody := if MAX_CHUNK_CHARS - |header| >= 256 then MAX_CHUNK_CHARS - |header| else 256;
    var start, hardEnd := span.start, span.end;
    ghost var goal := Split(lines, start, hardEnd, maxBody);
    chunks := [];
    while start <= hardEnd
      invariant span.start <= start <= hardEnd
      invariant chunks + Split(lines, start, hardEnd, maxBody) == goal
      decreases hardEnd - start
    {
      var end := if start + MAX_CHUNK_LINES - 1 <= hardEnd then start + MAX_CHUNK_LINES - 1 else hardEnd;
      ghost var chosen := ShrinkEnd(lines, start, end, maxBody);
      while end > start
        invariant start <= end <= hardEnd
        invariant ShrinkEnd(lines, start, end, maxBody) == chosen
      {
        var bodyChars := Sum(lines, start, end);
        if bodyChars <= maxBody {
          break;
        }
        end := end - 1;
      }
      assert end == ChunkEnd(lines, start, hardEnd, maxBody);
      SplitStep(lines, start, hardEnd, maxBody, chunks);
      chunks := chunks + [Range(start, end)];
      if end >= hardEnd {
        return;
      }
      start := if end - WINDOW_OVERLAP + 2 >= start + 1 then end - WINDOW_OVERLAP + 2 else start + 1;
    }
  }

  method Sum(lines: seq<string>, a: int, b: int) returns (n: nat)
    requires 1 <= a <= b <= |lines|
    ensures n == BodyChars(lines, a, b)
  {
    n := 0;
    for i := a to b + 1
      invariant n == BodyChars(lines, a, i - 1)
    {
      n := n + |lines[i - 1]| + 1;
    }
  }

  // ----- the chunks of a span

  lemma {:induction false} ShrinkEndLargest(lines: seq<string>, a: int, e: int, maxBody: nat, f: int)
    requires 1 <= a <= e <= |lines| && a <= f <= e
    ensures var r := ShrinkEnd(lines, a, e, maxBody);
            && (r == a || BodyChars(lines, a, r) <= maxBody)
            && (f > r ==> BodyChars(lines, a, f) > maxBody)
    decreases e - a
  {
    if !(e == a || BodyChars(lines, a, e) <= maxBody) {
      if f < e {
        ShrinkEndLargest(lines, a, e - 1, maxBody, f);
      } else {
        ShrinkEndLargest(lines, a, e - 1, maxBody, e - 1);
      }
    }
  }

  /** MAIN: a chunk ends at the largest line that the limits allow. */
  lemma ChunkEndLargest(lines: seq<string>, a: int, hardEnd: int, maxBody: nat, f: int)
    requires 1 <= a <= f <= hardEnd <= |lines|
    ensures var e := ChunkEnd(lines, a, hardEnd, maxBody);
            && e - a + 1 <= MAX_CHUNK_LINES
            && (e > a ==> BodyChars(lines, a, e) <= maxBody)
            && (f > e ==> f - a + 1 > MAX_CHUNK_LINES || BodyChars(lines, a, f) > maxBody)
  {
    var top := if a + MAX_CHUNK_LINES - 1 <= hardEnd then a + MAX_CHUNK_LINES - 1 else hardEnd;
    ShrinkEndLargest(lines, a, top, maxBody, if f <= top then f else top);
  }

  /** Consecutive chunks move on: starts strictly up, ends never down, no gap, at most nine
      lines of overlap. */
  predicate Follows(r: Range, q: Range) {
    r.start < q.start <= r.end + 1 && r.end <= q.end && r.end - q.start + 1 <= WINDOW_OVERLAP - 1
  }

  lemma {:induction false} EndGrows(lines: seq<string>, a: int, b: int, hardEnd: int, maxBody: nat)
    requires 1 <= a < b <= hardEnd <= |lines| && b <= ChunkEnd(lines, a, hardEnd, maxBody) + 1
    ensures ChunkEnd(lines, a, hardEnd, maxBody) <= ChunkEnd(lines, b, hardEnd, maxBody)
  {
    var e := ChunkEnd(lines, a, hardEnd, maxBody);
    if b <= e {
      ChunkEndLargest(lines, a, hardEnd, maxBody, e);
      BodyFrom(lines, a, b, e);
      ChunkEndLargest(lines, b, hardEnd, maxBody, e);
    }
  }

  lemma {:induction false} BodyFrom(lines: seq<string>, a: int, b: int, e: int)
    requires 1 <= a <= b && e <= |lines|
    ensures BodyChars(lines, b, e) <= BodyChars(lines, a, e)
    decreases e - a
  {
    if b <= e {
      BodyFrom(lines, a, b, e - 1);
    }
  }

  /** MAIN: the chunks of a span start at its start, end at its end, and follow one another. */
  lemma {:induction false} SplitFollows(lines: seq<string>, a: int, hardEnd: int, maxBody: nat)
    requires 1 <= a <= hardEnd <= |lines|
    ensures var cs := Split(lines, a, hardEnd, maxBody);
            && cs != [] && cs[0].start == a && cs[|cs| - 1].end == hardEnd
            && (forall i :: 0 <= i < |cs| ==> a <= cs[i].start <= cs[i].end <= hardEnd)
            && (forall i :: 0 <= i < |cs| ==> cs[i].end == ChunkEnd(lines, cs[i].start, hardEnd, maxBody))
            && (forall i :: 0 <= i < |cs| - 1 ==> Follows(cs[i], cs[i + 1]))
    decreases hardEnd - a
  {
    hide ChunkEnd;
    var e := ChunkEnd(lines, a, hardEnd, maxBody);
    var cs := Split(lines, a, hardEnd, maxBody);
    if e < hardEnd {
      var b := NextStart(a, e);
      SplitFollows(lines, b, hardEnd, maxBody);
      EndGrows(lines, a, b, hardEnd, maxBody);
      var rest := Split(lines, b, hardEnd, maxBody);
      assert cs == [Range(a, e)] + rest;
      forall i | 0 <= i < |cs| - 1 ensures Follows(cs[i], cs[i + 1]) {
        assert cs[i + 1] == rest[i];
        assert i > 0 ==> cs[i] == rest[i - 1];
      }
    }
  }

  function Covering(cs: seq<Range>, line: int): nat {
    if cs == [] then 0
    else (if cs[0].start <= line <= cs[0].end then 1 else 0) + Covering(cs[1..], line)
  }

  /** Once a chunk starts at or after `line - 8`, few more can still hold the line. */
  lemma {:induction false} CoveringFew(cs: seq<Range>, line: int)
    requires cs != [] && forall k :: 0 <= k < |cs| - 1 ==> Follows(cs[k], cs[k + 1])
    ensures cs[0].start > line ==> Covering(cs, line) == 0
    ensures cs[0].start <= line ==> Covering(cs, line) <= line - cs[0].start + 1
    decreases |cs|
  {
    if |cs| > 1 {
      var rest := cs[1..];
      assert Follows(cs[0], cs[1]);
      forall k | 0 <= k < |rest| - 1 ensures Follows(rest[k], rest[k + 1]) {
        assert Follows(cs[k + 1], cs[k + 2]);
      }
      CoveringFew(rest, line);
    } else {
      assert cs[1..] == [];
    }
  }

  lemma {:induction false} CoveringBound(cs: seq<Range>, line: int)
    requires cs != [] && forall k :: 0 <= k < |cs| - 1 ==> Follows(cs[k], cs[k + 1])
    requires cs[0].start <= line <= cs[|cs| - 1].end
    ensures 1 <= Covering(cs, line) <= WINDOW_OVERLAP
    decreases |cs|
  {
    if |cs| > 1 {
      var rest := cs[1..];
      assert Follows(cs[0], cs[1]);
      forall k | 0 <= k < |rest| - 1 ensures Follows(rest[k], rest[k + 1]) {
        assert Follows(cs[k + 1], cs[k + 2]);
      }
      if line <= cs[0].end {
        CoveringFew(rest, line);
      } else {
        CoveringBound(rest, line);
      }
    } else {
      assert cs[1..] == [];
    }
  }

  /** MAIN: every line of a span lies in at least one and at most WINDOW_OVERLAP chunks. */
  lemma EveryLineCovered(lines: seq<string>, a: int, hardEnd: int, maxBody: nat, line: int)
    requires 1 <= a <= line <= hardEnd <= |lines|
    ensures 1 <= Covering(Split(lines, a, hardEnd, maxBody), line) <= WINDOW_OVERLAP
  {
    SplitFollows(lines, a, hardEnd, maxBody);
    CoveringBound(Split(lines, a, hardEnd, maxBody), line);
  }

  // ----- the text of a chunk

  function Join(lines: seq<string>): string {
    if lines == [] then ""
    else if |lines| == 1 then lines[0]
    else Join(lines[..|lines| - 1]) + "\n" + lines[|lines| - 1]
  }

  function ChunkText(rel: string, lines: seq<string>, symbol: string, kind: string, r: Range): string
    requires 1 <= r.start <= r.end <= |lines|
  {
    Header(rel, symbol, kind) + Join(lines[r.start - 1..r.end])
  }

  lemma {:induction false} JoinLength(lines: seq<string>, a: int, b: int)
    requires 1 <= a <= b <= |lines|
    ensures |Join(lines[a - 1..b])| == BodyChars(lines, a, b) - 1
    decreases b - a
  {
    var part := lines[a - 1..b];
    if a == b {
      assert part == [lines[a - 1]];
      assert BodyChars(lines, a, b - 1) == 0;
    } else {
      JoinLength(lines, a, b - 1);
      assert part[..|part| - 1] == lines[a - 1..b - 1] && part[|part| - 1] == lines[b - 1];
    }
  }

  // ----- what the text says

  /** `str.split("\n")`. */
  function SplitBreaks(s: string): (r: seq<string>)
    ensures r != []
  {
    if s == "" then [""]
    else
      var rest := SplitBreaks(s[1..]);
      if s[0] == '\n' then [""] + rest else [[s[0]] + rest[0]] + rest[1..]
  }

  lemma {:induction false} SplitAtBreak(x: string, y: string)
    ensures SplitBreaks(x + "\n" + y) == SplitBreaks(x) + SplitBreaks(y)
  {
    var s := x + "\n" + y;
    if x == "" {
      assert s[1..] == y;
    } else {
      assert s[1..] == x[1..] + "\n" + y;
      SplitAtBreak(x[1..], y);
    }
  }

  lemma {:induction false} SplitNoBreak(x: string)
    requires '\n' !in x
    ensures SplitBreaks(x) == [x]
  {
    if x != "" {
      SplitNoBreak(x[1..]);
      assert [x[0]] + x[1..] == x;
    }
  }

  lemma {:induction false} JoinReadsBack(lines: seq<string>)
    requires lines != [] && forall i :: 0 <= i < |lines| ==> '\n' !in lines[i]
    ensures SplitBreaks(Join(lines)) == lines
  {
    var last := |lines| - 1;
    SplitNoBreak(lines[last]);
    if last > 0 {
      JoinReadsBack(lines[..last]);
      SplitAtBreak(Join(lines[..last]), lines[last]);
    }
  }

  /** MAIN: read line by line, the text of a chunk is one line that names the file, the symbol and
      the kind, and then exactly the lines of its range. */
  lemma TextReadsBack(rel: string, lines: seq<string>, symbol: string, kind: string, r: Range)
    requires 1 <= r.start <= r.end <= |lines| && forall i :: 0 <= i < |lines| ==> '\n' !in lines[i]
    requires '\n' !in rel && '\n' !in symbol && '\n' !in kind
    ensures SplitBreaks(ChunkText(rel, lines, symbol, kind, r)) ==
            ["# " + rel + " :: " + symbol + " [" + kind + "]"] + lines[r.start - 1..r.end]
  {
    var first := "# " + rel + " :: " + symbol + " [" + kind + "]";
    var part := lines[r.start - 1..r.end];
    assert first + "\n" + Join(part) == ChunkText(rel, lines, symbol, kind, r);
    SplitNoBreak(first);
    JoinReadsBack(part);
    SplitAtBreak(first, Join(part));
  }

  /** The assertion of `chunk_text` fails for a chunk. */
  predicate TooLong(rel: string, lines: seq<string>, symbol: string, kind: string, r: Range)
    requires 1 <= r.start <= r.end <= |lines|
  {
    |ChunkText(rel, lines, symbol, kind, r)| > MAX_CHUNK_CHARS && r.start != r.end
  }

  function NthChunk(lines: seq<string>, a: int, b: int, maxBody: nat, i: nat): (r: Range)
    requires 1 <= a <= b <= |lines| && i < |Split(lines, a, b, maxBody)|
    ensures 1 <= r.start <= r.end <= |lines|
  {
    SplitFollows(lines, a, b, maxBody);
    Split(lines, a, b, maxBody)[i]
  }

  /** No chunk of any span of any file makes the assertion fail. */
  ghost predicate NeverTooLong(rel: string, symbol: string, kind: string) {
    forall lines: seq<string>, a: int, b: int, i: nat
      | 1 <= a <= b <= |lines| && i < |Split(lines, a, b, MaxBody(|Header(rel, symbol, kind)|))|
      :: !TooLong(rel, lines, symbol, kind, NthChunk(lines, a, b, MaxBody(|Header(rel, symbol, kind)|), i))
  }

  function Repeat(n: nat): (r: string)
    ensures |r| == n
  {
    seq(n, _ => 'x')
  }

  /** MAIN: the assertion of `chunk_text` is unreachable exactly when the header has at most
      MAX_CHUNK_CHARS - 255 characters. */
  lemma AssertionUnreachable(rel: string, symbol: string, kind: string)
    ensures NeverTooLong(rel, symbol, kind) <==> |Header(rel, symbol, kind)| <= MAX_CHUNK_CHARS - 255
  {
    hide Split, ChunkText, Header, Join, ChunkEnd;
    var h := |Header(rel, symbol, kind)|;
    if h <= MAX_CHUNK_CHARS - 255 {
      forall lines: seq<string>, a: int, b: int, i: nat | 1 <= a <= b <= |lines| && i < |Split(lines, a, b, MaxBody(h))|
        ensures !TooLong(rel, lines, symbol, kind, NthChunk(lines, a, b, MaxBody(h), i))
      {
        SplitFollows(lines, a, b, MaxBody(h));
        var r := NthChunk(lines, a, b, MaxBody(h), i);
        ChunkEndLargest(lines, r.start, b, MaxBody(h), r.end);
        TextLength(rel, lines, symbol, kind, r);
      }
    } else {
      var lines := [Repeat(127), Repeat(127)];
      TwoLines(lines);
      TextLength(rel, lines, symbol, kind, Range(1, 2));
      assert TooLong(rel, lines, symbol, kind, NthChunk(lines, 1, 2, MaxBody(h), 0));
    }
  }

  lemma TextLength(rel: string, lines: seq<string>, symbol: string, kind: string, r: Range)
    requires 1 <= r.start <= r.end <= |lines|
    ensures |ChunkText(rel, lines, symbol, kind, r)| == |Header(rel, symbol, kind)| + BodyChars(lines, r.start, r.end) - 1
  {
    JoinLength(lines, r.start, r.end);
  }

  lemma TwoLines(lines: seq<string>)
    requires |lines| == 2 && |lines[0]| == 127 && |lines[1]| == 127
    ensures BodyChars(lines, 1, 2) == 256 && Split(lines, 1, 2, 256) == [Range(1, 2)]
  {
    assert BodyChars(lines, 1, 0) == 0 && BodyChars(lines, 1, 1) == 128;
  }

  // ----- the bound of ten is reached

  function ShortThenHuge(): (r: seq<string>)
    ensures |r| == 12 && |r[11]| == 6000 && forall i :: 0 <= i < 11 ==> r[i] == ""
  {
    ["", "", "", "", "", "", "", "", "", "", "", Repeat(6000)]
  }

  lemma {:induction false} ShortBodies(a: int, b: int)
    requires 1 <= a && b <= 12
    ensures b <= 11 ==> BodyChars(ShortThenHuge(), a, b) == if b < a then 0 else b - a + 1
    ensures a <= b == 12 ==> BodyChars(ShortThenHuge(), a, b) > 5500
    decreases b - a
  {
    if a <= b {
      ShortBodies(a, b - 1);
    }
  }

  lemma ShortEnd(a: int)
    requires 1 <= a <= 11
    ensures ChunkEnd(ShortThenHuge(), a, 12, 5400) == 11
  {
    var e := ChunkEnd(ShortThenHuge(), a, 12, 5400);
    ShortBodies(a, 11);
    ShortBodies(a, 12);
    ChunkEndLargest(ShortThenHuge(), a, 12, 5400, 11);
    ChunkEndLargest(ShortThenHuge(), a, 12, 5400, 12);
  }

  lemma {:induction false} ShortChunks(a: int)
    requires 3 <= a <= 12
    ensures Covering(Split(ShortThenHuge(), a, 12, 5400), 11) == 12 - a
    decreases 12 - a
  {
    hide ChunkEnd, ShortThenHuge;
    var cs := Split(ShortThenHuge(), a, 12, 5400);
    if a == 12 {
      assert ChunkEnd(ShortThenHuge(), 12, 12, 5400) == 12;
      assert cs[1..] == [];
    } else {
      ShortEnd(a);
      ShortChunks(a + 1);
      assert NextStart(a, 11) == a + 1;
      assert cs[1..] == Split(ShortThenHuge(), a + 1, 12, 5400);
    }
  }

  /** Eleven empty lines before a huge one: line 11 is in ten chunks. */
  lemma TenIsReached()
    ensures Covering(Split(ShortThenHuge(), 1, 12, 5400), 11) == WINDOW_OVERLAP
  {
    hide ChunkEnd, ShortThenHuge;
    var cs := Split(ShortThenHuge(), 1, 12, 5400);
    ShortEnd(1);
    assert NextStart(1, 11) == 3;
    ShortChunks(3);
    assert cs[1..] == Split(ShortThenHuge(), 3, 12, 5400);
  }
}
