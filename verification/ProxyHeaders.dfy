/** The request head: parsed, filtered, printed again, and read back by the next hop. Bytes and
    code points coincide here, because the head is decoded and encoded as latin-1. */
module ProxyHeaders {
  import opened Text

  const CR := 13
  const LF := 10
  const SP := 32
  const TAB := 9
  const COLON := 58
  const CRLF := [CR, LF]
  const BLANK := [CR, LF, CR, LF]

  datatype Header = Header(name: Str, value: Str)

  datatype Head = Head(verb: Str, target: Str, version: Str, headers: seq<Header>)

  // ----- lines

  /** `str.split("\r\n")`. */
  function SplitLines(s: Str): (r: seq<Str>)
    ensures |r| >= 1
  {
    if |s| < 2 then [s]
    else if s[..2] == CRLF then [[]] + SplitLines(s[2..])
    else
      var rest := SplitLines(s[1..]);
      [[s[0]] + rest[0]] + rest[1..]
  }

  function JoinLines(lines: seq<Str>): Str
    requires lines != []
  {
    if |lines| == 1 then lines[0] else lines[0] + CRLF + JoinLines(lines[1..])
  }

  predicate OneLine(s: Str) {
    CR !in s && LF !in s
  }

  predicate AllOneLine(lines: seq<Str>) {
    forall i :: 0 <= i < |lines| ==> OneLine(lines[i])
  }

  lemma {:induction false} SplitOneLine(s: Str)
    requires OneLine(s)
    ensures SplitLines(s) == [s]
  {
    if |s| >= 2 {
      assert s[0] in s;
      SplitOneLine(s[1..]);
      assert [s[0]] + s[1..] == s;
    }
  }

  lemma {:induction false} SplitFirst(line: Str, rest: Str)
    requires OneLine(line)
    ensures SplitLines(line + CRLF + rest) == [line] + SplitLines(rest)
  {
    var s := line + CRLF + rest;
    if line == [] {
      assert s[..2] == CRLF && s[2..] == rest;
    } else {
      assert line[0] in line;
      assert s[0] == line[0] && s[..2] != CRLF;
      assert s[1..] == line[1..] + CRLF + rest;
      SplitFirst(line[1..], rest);
      assert [s[0]] + line[1..] == line;
    }
  }

  lemma {:induction false} SplitJoin(lines: seq<Str>)
    requires lines != [] && AllOneLine(lines)
    ensures SplitLines(JoinLines(lines)) == lines
  {
    if |lines| == 1 {
      SplitOneLine(lines[0]);
    } else {
      SplitJoin(lines[1..]);
      SplitFirst(lines[0], JoinLines(lines[1..]));
    }
  }

  // ----- where a head ends

  /** `reader.readuntil(b"\r\n\r\n")`: up to and including the first blank line. */
  function ReadHead(s: Str): Option<Str> {
    if |s| < 4 then None
    else if s[..4] == BLANK then Some(BLANK)
    else
      match ReadHead(s[1..])
      case None => None
      case Some(h) => Some([s[0]] + h)
  }

  /** A head whose lines are not empty ends at its own blank line and nowhere before. */
  lemma {:induction false} HeadEndsOnce(lines: seq<Str>, rest: Str)
    requires lines != [] && AllOneLine(lines)
    requires forall i :: 0 <= i < |lines| ==> lines[i] != []
    ensures ReadHead(JoinLines(lines) + BLANK + rest) == Some(JoinLines(lines) + BLANK)
    decreases |lines|
  {
    hide ReadHead;
    if |lines| == 1 {
      ReadBlank(rest);
      ReadOver(lines[0], BLANK + rest);
      assert lines[0] + (BLANK + rest) == JoinLines(lines) + BLANK + rest;
    } else {
      var tail := JoinLines(lines[1..]) + BLANK;
      HeadEndsOnce(lines[1..], rest);
      assert lines[1][0] in lines[1] && tail[0] == lines[1][0];
      ReadOverBreak(tail, rest);
      ReadOver(lines[0], CRLF + tail + rest);
      assert lines[0] + (CRLF + tail + rest) == JoinLines(lines) + BLANK + rest;
      assert lines[0] + (CRLF + tail) == JoinLines(lines) + BLANK;
    }
  }

  lemma ReadBlank(rest: Str)
    ensures ReadHead(BLANK + rest) == Some(BLANK)
  {
    assert (BLANK + rest)[..4] == BLANK;
  }

  /** A line break followed by text does not end the head. */
  lemma ReadOverBreak(tail: Str, rest: Str)
    requires tail != [] && tail[0] != CR && ReadHead(tail + rest) == Some(tail)
    ensures ReadHead(CRLF + tail + rest) == Some(CRLF + tail)
  {
    var t := tail + rest;
    var lf, cr := [LF] + t, CRLF + tail + rest;
    assert |t| >= 4;
    assert lf[..4][0] == LF && lf[1..] == t;
    assert cr[..4][2] == t[0] && cr[1..] == lf;
    assert [CR] + ([LF] + tail) == CRLF + tail;
  }

  lemma {:induction false} ReadOver(line: Str, rest: Str)
    requires OneLine(line) && ReadHead(rest).Some?
    ensures ReadHead(line + rest) == Some(line + ReadHead(rest).value)
  {
    if line == [] {
      assert line + rest == rest;
      assert line + ReadHead(rest).value == ReadHead(rest).value;
    } else {
      var s := line + rest;
      assert line[0] in line;
      assert s[..4][0] == line[0];
      assert s[1..] == line[1..] + rest;
      ReadOver(line[1..], rest);
      assert [s[0]] + (line[1..] + ReadHead(rest).value) == line + ReadHead(rest).value;
    }
  }

  // ----- one field line

  predicate TokenChar(c: int) {
    || 'a' as int <= c <= 'z' as int || 'A' as int <= c <= 'Z' as int || IsDigit(c)
    || c in Ascii("!#$%&'*+.^_`|~-")
  }

  predicate Token(s: Str) {
    s != [] && forall i :: 0 <= i < |s| ==> TokenChar(s[i])
  }

  /** The index of the first colon, or the length. */
  function FirstColon(s: Str): (i: nat)
    ensures i <= |s| && COLON !in s[..i]
    ensures i < |s| ==> s[i] == COLON
  {
    if s == [] || s[0] == COLON then 0
    else
      var i := 1 + FirstColon(s[1..]);
      assert s[..i] == [s[0]] + s[1..][..i - 1];
      i
  }

  /** One iteration of the header loop; None stands for the 400 answer. */
  function ParseField(line: Str): Option<Header> {
    if line == [] || line[0] == SP || line[0] == TAB || COLON !in line then None
    else
      var i := FirstColon(line);
      var name, value := line[..i], line[i + 1..];
      if !Token(name) || CR in value || LF in value then None
      else Some(Header(name, Strip(value)))
  }

  function PrintField(h: Header): Str {
    h.name + [COLON, SP] + h.value
  }

  ghost predicate Padded(line: Str, h: Header, pre: Str, post: Str) {
    && line == h.name + [COLON] + (pre + h.value + post)
    && Blank(pre) && Blank(post)
  }

  predicate Clean(h: Header) {
    Token(h.name) && OneLine(h.value) && Stripped(h.value)
  }

  /** A field line is accepted as `h` if and only if it is the name, a colon directly after it,
      and the value between white space of `str.strip`; no folding. That is more white space than
      the spaces and tabs of section 5 of RFC 9112: U+00A0 and U+0085 are stripped too. */
  lemma FieldLineExact(line: Str, h: Header)
    ensures ParseField(line) == Some(h) <==>
            Clean(h) && OneLine(line) && exists pre, post :: Padded(line, h, pre, post)
  {
    hide Strip, TokenChar, Blank, IsSpace;
    if ParseField(line) == Some(h) {
      var i := FirstColon(line);
      var value := line[i + 1..];
      var pre, post := StripParts(value);
      assert line == line[..i] + [COLON] + value;
      TokenIsPlain(h.name);
      assert OneLine(h.value) by {
        assert forall c :: c in h.value ==> c in value;
      }
      assert Padded(line, h, pre, post);
    }
    if Clean(h) && OneLine(line) && exists pre, post :: Padded(line, h, pre, post) {
      var pre, post :| Padded(line, h, pre, post);
      PaddedParses(line, h, pre, post);
    }
  }

  lemma TokenIsPlain(s: Str)
    requires Token(s)
    ensures OneLine(s) && COLON !in s && s[0] != SP && s[0] != TAB
    ensures forall i :: 0 <= i < |s| ==> 0 <= s[i] < 128
  {
    forall i | 0 <= i < |s| ensures s[i] !in [CR, LF, COLON, SP, TAB] && 0 <= s[i] < 128 {
      assert TokenChar(s[i]);
    }
  }

  lemma {:induction false} FirstColonIs(s: Str, n: nat)
    requires n < |s| && s[n] == COLON && COLON !in s[..n]
    ensures FirstColon(s) == n
  {
    if n > 0 {
      assert s[0] == s[..n][0];
      assert forall c :: c in s[1..][..n - 1] ==> c in s[..n];
      FirstColonIs(s[1..], n - 1);
    }
  }

  lemma PaddedParses(line: Str, h: Header, pre: Str, post: Str)
    requires Clean(h) && OneLine(line) && Padded(line, h, pre, post)
    ensures ParseField(line) == Some(h)
  {
    TokenIsPlain(h.name);
    var n := |h.name|;
    assert line[n] == COLON && line[0] == h.name[0];
    assert line[..n] == h.name;
    FirstColonIs(line, n);
    var i := FirstColon(line);
    assert line[..i] == h.name;
    assert line[i + 1..] == pre + h.value + post;
    assert forall c :: c in line[i + 1..] ==> c in line;
    StripPadded(pre, h.value, post);
  }

  lemma PrintedFieldParses(h: Header)
    requires Clean(h)
    ensures OneLine(PrintField(h)) && PrintField(h) != [] && ParseField(PrintField(h)) == Some(h)
  {
    TokenIsPlain(h.name);
    assert PrintField(h) == h.name + [COLON] + ([SP] + h.value + []);
    assert Padded(PrintField(h), h, [SP], []);
    PaddedParses(PrintField(h), h, [SP], []);
  }

  // ----- the whole head

  function ParseFields(lines: seq<Str>): Option<seq<Header>> {
    if lines == [] then Some([])
    else
      var last := |lines| - 1;
      match ParseFields(lines[..last])
      case None => None
      case Some(hs) =>
        match ParseField(lines[last])
        case None => None
        case Some(h) => Some(hs + [h])
  }

  /** `raw[:-4]`, which of fewer than four bytes leaves nothing. */
  function WithoutBlank(raw: Bytes): Str {
    if |raw| < 4 then [] else raw[..|raw| - 4]
  }

  datatype Parsed = Parsed(requestLine: Str, headers: seq<Header>)

  function ParsedHeaders(raw: Bytes): Option<Parsed> {
    var lines := SplitLines(WithoutBlank(raw));
    if lines[0] == [] then None
    else
      match ParseFields(lines[1..])
      case None => None
      case Some(hs) => Some(Parsed(lines[0], hs))
  }

  /** `_parse_headers`: the loop stops at the first bad line. */
  method ParseHeaders(raw: Bytes) returns (r: Option<Parsed>)
    ensures r == ParsedHeaders(raw)
  {
    var lines := SplitLines(WithoutBlank(raw));
    if lines[0] == [] {
      return None;
    }
    var headers: seq<Header> := [];
    var fields := lines[1..];
    for i := 0 to |fields|
      invariant ParseFields(fields[..i]) == Some(headers)
    {
      assert fields[..i + 1][..i] == fields[..i];
      match ParseField(fields[i]) {
        case None =>
          StaysRefused(fields, i + 1);
          return None;
        case Some(h) =>
          headers := headers + [h];
      }
    }
    assert fields[..|fields|] == fields;
    return Some(Parsed(lines[0], headers));
  }

  lemma {:induction false} StaysRefused(lines: seq<Str>, n: nat)
    requires n <= |lines| && ParseFields(lines[..n]) == None
    ensures ParseFields(lines) == None
    decreases |lines|
  {
    if n < |lines| {
      assert lines[..|lines| - 1][..n] == lines[..n];
      StaysRefused(lines[..|lines| - 1], n);
    } else {
      assert lines[..n] == lines;
    }
  }

  function PrintFields(hs: seq<Header>): (r: seq<Str>)
    ensures |r| == |hs|
    ensures forall i :: 0 <= i < |hs| ==> r[i] == PrintField(hs[i])
  {
    seq(|hs|, i requires 0 <= i < |hs| => PrintField(hs[i]))
  }

  predicate AllClean(hs: seq<Header>) {
    forall i :: 0 <= i < |hs| ==> Clean(hs[i])
  }

  lemma {:induction false} PrintedFieldsParse(hs: seq<Header>)
    requires AllClean(hs)
    ensures ParseFields(PrintFields(hs)) == Some(hs)
    ensures AllOneLine(PrintFields(hs))
    ensures forall i :: 0 <= i < |hs| ==> PrintFields(hs)[i] != []
  {
    hide ParseField, PrintField, Clean, OneLine;
    forall i | 0 <= i < |hs| ensures OneLine(PrintFields(hs)[i]) && PrintFields(hs)[i] != [] {
      PrintedFieldParses(hs[i]);
    }
    if hs != [] {
      var last := |hs| - 1;
      PrintedFieldsParse(hs[..last]);
      assert PrintFields(hs)[..last] == PrintFields(hs[..last]);
      PrintedFieldParses(hs[last]);
      assert hs[..last] + [hs[last]] == hs;
    }
  }

  lemma {:induction false} ParsedFieldsClean(lines: seq<Str>)
    requires ParseFields(lines).Some?
    ensures AllClean(ParseFields(lines).value)
  {
    if lines != [] {
      var last := |lines| - 1;
      ParsedFieldsClean(lines[..last]);
      FieldLineExact(lines[last], ParseField(lines[last]).value);
    }
  }

  // ----- the request line

  /** `str.split(" ")`. */
  function SplitSpaces(s: Str): (r: seq<Str>)
    ensures |r| >= 1
    ensures forall i :: 0 <= i < |r| ==> SP !in r[i]
  {
    if s == [] then [[]]
    else
      var rest := SplitSpaces(s[1..]);
      if s[0] == SP then [[]] + rest else [[s[0]] + rest[0]] + rest[1..]
  }

  lemma {:induction false} SplitSpacesFirst(word: Str, rest: Str)
    requires SP !in word
    ensures SplitSpaces(word + [SP] + rest) == [word] + SplitSpaces(rest)
  {
    var s := word + [SP] + rest;
    if word == [] {
      assert s[1..] == rest;
    } else {
      assert word[0] in word;
      assert s[1..] == word[1..] + [SP] + rest;
      SplitSpacesFirst(word[1..], rest);
      assert [s[0]] + word[1..] == word;
    }
  }

  lemma {:induction false} SplitSpacesNone(word: Str)
    requires SP !in word
    ensures SplitSpaces(word) == [word]
  {
    if word != [] {
      assert word[0] in word;
      SplitSpacesNone(word[1..]);
      assert [word[0]] + word[1..] == word;
    }
  }

  const MICRO := 0xB5
  const Y_DIAERESIS := 0xFF

  /** `str.isalpha()` of a latin-1 character, or of the two capitals that leave latin-1. */
  predicate IsAlpha(c: int) {
    || 'a' as int <= c <= 'z' as int || 'A' as int <= c <= 'Z' as int
    || c == 0xAA || c == MICRO || c == 0xBA
    || (0xC0 <= c <= Y_DIAERESIS && c != 0xD7 && c != 0xF7)
    || c == 0x39C || c == 0x178
  }

  /** `str.upper()` of such a character: sharp s becomes two letters, and the micro sign and
      y with diaeresis have capitals that latin-1 cannot encode. */
  function UpperChar(c: int): (r: Str)
    requires IsAlpha(c)
    ensures r != [] && forall i :: 0 <= i < |r| ==> IsAlpha(r[i])
  {
    if 'a' as int <= c <= 'z' as int then [c - 32]
    else if c == MICRO then [0x39C]
    else if c == 0xDF then ['S' as int, 'S' as int]
    else if c == Y_DIAERESIS then [0x178]
    else if 0xE0 <= c <= 0xFE then [c - 32]
    else [c]
  }

  predicate AllAlpha(s: Str) {
    s != [] && forall i :: 0 <= i < |s| ==> IsAlpha(s[i])
  }

  function Upper(s: Str): (r: Str)
    requires s == [] || AllAlpha(s)
    ensures r == [] || AllAlpha(r)
    ensures s != [] ==> r != []
  {
    if s == [] then [] else UpperChar(s[0]) + Upper(s[1..])
  }

  predicate Version(s: Str) {
    s == Ascii("HTTP/1.0") || s == Ascii("HTTP/1.1")
  }

  /** `_parse_request_line`. */
  function ParseRequestLine(line: Str): (r: Option<(Str, Str, Str)>)
  {
    var pieces := SplitSpaces(line);
    if |pieces| != 3 || !AllAlpha(pieces[0]) || !Version(pieces[2]) then None
    else Some((Upper(pieces[0]), pieces[1], pieces[2]))
  }

  function ParseHead(raw: Bytes): Option<Head> {
    match ParsedHeaders(raw)
    case None => None
    case Some(p) =>
      match ParseRequestLine(p.requestLine)
      case None => None
      case Some((verb, target, version)) => Some(Head(verb, target, version, p.headers))
  }

  lemma {:induction false} UpperIdempotent(s: Str)
    requires AllAlpha(s)
    ensures Upper(Upper(s)) == Upper(s)
  {
    UpperFixes(Upper(s), s);
  }

  lemma {:induction false} UpperConcat(a: Str, b: Str)
    requires (a == [] || AllAlpha(a)) && (b == [] || AllAlpha(b))
    ensures a + b == [] || AllAlpha(a + b)
    ensures Upper(a + b) == Upper(a) + Upper(b)
  {
    hide IsAlpha, UpperChar;
    if a == [] {
      assert a + b == b;
    } else {
      assert (a + b)[1..] == a[1..] + b;
      UpperConcat(a[1..], b);
    }
  }

  lemma {:induction false} UpperFixes(u: Str, s: Str)
    requires (s == [] || AllAlpha(s)) && u == Upper(s)
    ensures Upper(u) == u
    decreases |s|
  {
    if s != [] {
      UpperFixes(Upper(s[1..]), s[1..]);
      UpperConcat(UpperChar(s[0]), Upper(s[1..]));
      UpperCharFixed(s[0]);
    }
  }

  lemma UpperCharFixed(c: int)
    requires IsAlpha(c)
    ensures Upper(UpperChar(c)) == UpperChar(c)
  {
    var u := UpperChar(c);
    assert UpperChar(u[0]) == [u[0]];
    assert Upper(u[1..]) == u[1..] by {
      if |u| == 2 {
        assert u[1..] == ['S' as int];
        assert Upper(u[1..]) == UpperChar('S' as int) + Upper(u[1..][1..]);
      }
    }
    assert [u[0]] + u[1..] == u;
  }

  // ----- what goes upstream

  function LowerChar(c: int): int {
    if 'A' as int <= c <= 'Z' as int then c + 32 else c
  }

  /** `name.casefold()`: field names are ASCII tokens. */
  function Fold(s: Str): (r: Str)
    ensures |r| == |s|
  {
    seq(|s|, i requires 0 <= i < |s| => LowerChar(s[i]))
  }

  predicate HopByHop(name: Str) {
    var n := Fold(name);
    || n == Ascii("proxy-authorization") || n == Ascii("proxy-connection")
    || n == Ascii("connection") || n == Ascii("keep-alive")
  }

  function Forwarded(hs: seq<Header>): seq<Header> {
    if hs == [] then []
    else if HopByHop(hs[0].name) then Forwarded(hs[1..])
    else [hs[0]] + Forwarded(hs[1..])
  }

  /** The values of the fields of this (folded) name, in order. */
  function Values(hs: seq<Header>, folded: Str): seq<Str> {
    if hs == [] then []
    else (if Fold(hs[0].name) == folded then [hs[0].value] else []) + Values(hs[1..], folded)
  }

  const CONNECTION_CLOSE := Header(Ascii("Connection"), Ascii("close"))

  function Outgoing(hs: seq<Header>, authority: Str): seq<Header> {
    Forwarded(hs)
    + (if Values(hs, Ascii("host")) == [] then [Header(Ascii("Host"), authority)] else [])
    + [CONNECTION_CLOSE]
  }

  function PrintAll(hs: seq<Header>): Str {
    if hs == [] then [] else PrintField(hs[0]) + CRLF + PrintAll(hs[1..])
  }

  function RequestLine(h: Head): Str {
    h.verb + [SP] + h.target + [SP] + h.version
  }

  function PrintHead(h: Head): Str {
    RequestLine(h) + CRLF + PrintAll(h.headers) + CRLF
  }

  predicate Latin1(s: Str) {
    forall i :: 0 <= i < |s| ==> 0 <= s[i] < 256
  }

  /** `path` is the path and query of the target, `authority` the text that names its host and
      port, and `matches` says whether a supplied Host names the same. */
  datatype Target = Target(path: Str, authority: Str, matches: Str -> bool)

  datatype Outcome = Refuse(status: int) | Forward(head: Bytes)

  function ForwardHead(raw: Bytes, t: Target): Outcome {
    match ParseHead(raw)
    case None => Refuse(400)
    case Some(h) =>
      var hosts := Values(h.headers, Ascii("host"));
      if |hosts| > 1 || (hosts != [] && !t.matches(hosts[0])) then Refuse(400)
      else if Values(h.headers, Ascii("expect")) != [] then Refuse(417)
      else if Values(h.headers, Ascii("upgrade")) != [] then Refuse(400)
      else
        var text := PrintHead(h.(target := t.path, headers := Outgoing(h.headers, t.authority)));
        if Latin1(text) then Forward(text) else Refuse(400)
  }

  /** What the URL parser guarantees of the target's parts. */
  predicate UsableTarget(t: Target) {
    && OneLine(t.path) && SP !in t.path && Latin1(t.path)
    && OneLine(t.authority) && Stripped(t.authority) && Latin1(t.authority)
  }

  // ----- the fields that survive

  lemma {:induction false} ValuesConcat(a: seq<Header>, b: seq<Header>, n: Str)
    ensures Values(a + b, n) == Values(a, n) + Values(b, n)
  {
    if a == [] {
      assert a + b == b;
    } else {
      assert (a + b)[1..] == a[1..] + b;
      ValuesConcat(a[1..], b, n);
    }
  }

  predicate HopName(n: Str) {
    || n == Ascii("proxy-authorization") || n == Ascii("proxy-connection")
    || n == Ascii("connection") || n == Ascii("keep-alive")
  }

  lemma {:induction false} ForwardedValues(hs: seq<Header>, n: Str)
    ensures Values(Forwarded(hs), n) == if HopName(n) then [] else Values(hs, n)
  {
    if hs != [] {
      ForwardedValues(hs[1..], n);
      if !HopByHop(hs[0].name) {
        assert Forwarded(hs)[1..] == Forwarded(hs[1..]);
      }
    }
  }

  lemma KnownNames()
    ensures Fold(Ascii("Host")) == Ascii("host") && Fold(Ascii("Connection")) == Ascii("connection")
    ensures Ascii("host") != Ascii("connection") && !HopName(Ascii("host")) && HopName(Ascii("connection"))
    ensures Token(Ascii("Host")) && Clean(CONNECTION_CLOSE)
    ensures !HopByHop(Ascii("Host")) && HopByHop(Ascii("Connection"))
  {
    assert |Ascii("host")| == 4 && |Ascii("keep-alive")| == 10;
    var c := Ascii("Connection");
    assert forall i :: 0 <= i < |c| ==> TokenChar(c[i]);
  }

  /** MAIN: upstream sees exactly one `Connection: close`, exactly one Host (the supplied one, or
      else the target's), none of the three other fields the proxy drops, and every other field
      with all its values in their order. */
  lemma OutgoingFields(hs: seq<Header>, authority: Str, n: Str)
    requires |Values(hs, Ascii("host"))| <= 1
    ensures Values(Outgoing(hs, authority), n) ==
            if n == Ascii("connection") then [Ascii("close")]
            else if HopName(n) then []
            else if n == Ascii("host") && Values(hs, n) == [] then [authority]
            else Values(hs, n)
    ensures |Values(Outgoing(hs, authority), Ascii("host"))| == 1
  {
    KnownNames();
    forall m: Str ensures Values(Outgoing(hs, authority), m) ==
                     (if HopName(m) then [] else Values(hs, m))
                     + (if Values(hs, Ascii("host")) == [] && m == Ascii("host") then [authority] else [])
                     + (if m == Ascii("connection") then [Ascii("close")] else [])
    {
      var host := if Values(hs, Ascii("host")) == [] then [Header(Ascii("Host"), authority)] else [];
      ForwardedValues(hs, m);
      ValuesConcat(Forwarded(hs), host, m);
      ValuesConcat(Forwarded(hs) + host, [CONNECTION_CLOSE], m);
      assert Values(host[..0], m) == [];
      assert [CONNECTION_CLOSE][1..] == [];
    }
  }

  /** Section 7.6.1 of RFC 9110 has a proxy drop the fields that Connection names. This one drops,
      of the fields that are there, those of its own list, whatever Connection names. */
  lemma DroppedExactly(hs: seq<Header>, authority: Str, n: Str)
    requires |Values(hs, Ascii("host"))| <= 1 && Values(hs, n) != [] && n != Ascii("connection")
    ensures Values(Outgoing(hs, authority), n) == [] <==>
            n == Ascii("proxy-authorization") || n == Ascii("proxy-connection") || n == Ascii("keep-alive")
    ensures Values(Outgoing(hs, authority), n) == [] || Values(Outgoing(hs, authority), n) == Values(hs, n)
  {
    hide Values, Outgoing;
    OutgoingFields(hs, authority, n);
  }

  /** So a field that Connection names goes through. */
  lemma NamedFieldSurvives(authority: Str)
    ensures var hs := [Header(Ascii("Connection"), Ascii("x")), Header(Ascii("x"), Ascii("1"))];
            AllClean(hs) && Values(Outgoing(hs, authority), Ascii("x")) == [Ascii("1")]
  {
    hide Outgoing, HopName;
    var hs := [Header(Ascii("Connection"), Ascii("x")), Header(Ascii("x"), Ascii("1"))];
    KnownNames();
    assert Fold(Ascii("x")) == Ascii("x");
    assert |Ascii("x")| == 1 && |Ascii("host")| == 4 && |Ascii("connection")| == 10;
    assert hs[1..] == [hs[1]] && hs[1..][1..] == [];
    OneLetterIsKept(Ascii("x"));
    OutgoingFields(hs, authority, Ascii("x"));
  }

  lemma OneLetterIsKept(n: Str)
    requires |n| == 1
    ensures !HopName(n)
  {
    assert |Ascii("proxy-authorization")| == 19 && |Ascii("proxy-connection")| == 16;
    assert |Ascii("connection")| == 10 && |Ascii("keep-alive")| == 10;
  }

  lemma {:induction false} ForwardedKeeps(hs: seq<Header>)
    ensures Forwarded(Forwarded(hs)) == Forwarded(hs)
    ensures AllClean(hs) ==> AllClean(Forwarded(hs))
  {
    if hs != [] {
      ForwardedKeeps(hs[1..]);
      assert AllClean(hs) ==> AllClean(hs[1..]);
      if !HopByHop(hs[0].name) {
        assert Forwarded(hs)[1..] == Forwarded(hs[1..]);
      }
    }
  }

  lemma {:induction false} ForwardedConcat(a: seq<Header>, b: seq<Header>)
    ensures Forwarded(a + b) == Forwarded(a) + Forwarded(b)
    ensures |a| == 1 ==> Forwarded(a) == if HopName(Fold(a[0].name)) then [] else a
  {
    if a == [] {
      assert a + b == b;
    } else {
      assert (a + b)[1..] == a[1..] + b;
      ForwardedConcat(a[1..], b);
    }
  }

  /** A second proxy of this kind changes nothing more. */
  lemma OutgoingTwice(hs: seq<Header>, first: Str, second: Str)
    requires |Values(hs, Ascii("host"))| <= 1
    ensures Outgoing(Outgoing(hs, first), second) == Outgoing(hs, first)
  {
    hide HopByHop, Values;
    KnownNames();
    var host := if Values(hs, Ascii("host")) == [] then [Header(Ascii("Host"), first)] else [];
    OutgoingFields(hs, first, Ascii("host"));
    ForwardedKeeps(hs);
    ForwardedConcat(Forwarded(hs), host);
    ForwardedConcat(Forwarded(hs) + host, [CONNECTION_CLOSE]);
    assert Forwarded(host) == host by {
      if host != [] {
        assert host[1..] == [];
        assert !HopByHop(host[0].name);
      }
    }
    assert [CONNECTION_CLOSE][1..] == [];
    assert Forwarded([CONNECTION_CLOSE]) == [];
  }

  // ----- printing and reading back

  lemma {:induction false} PrintIsJoin(line: Str, hs: seq<Header>)
    ensures line + CRLF + PrintAll(hs) + CRLF == JoinLines([line] + PrintFields(hs)) + BLANK
    decreases |hs|
  {
    var lines := [line] + PrintFields(hs);
    if hs == [] {
      assert lines == [line];
    } else {
      PrintIsJoin(PrintField(hs[0]), hs[1..]);
      assert lines[1..] == [PrintField(hs[0])] + PrintFields(hs[1..]);
      assert line + CRLF + PrintAll(hs) + CRLF
          == line + CRLF + (PrintField(hs[0]) + CRLF + PrintAll(hs[1..]) + CRLF);
      assert JoinLines(lines) + BLANK == line + CRLF + (JoinLines(lines[1..]) + BLANK);
    }
  }

  predicate Printable(h: Head) {
    && AllAlpha(h.verb) && Upper(h.verb) == h.verb
    && OneLine(h.target) && SP !in h.target && Version(h.version) && AllClean(h.headers)
  }

  lemma RequestLineParses(h: Head)
    requires Printable(h)
    ensures OneLine(RequestLine(h)) && RequestLine(h) != []
    ensures ParseRequestLine(RequestLine(h)) == Some((h.verb, h.target, h.version))
  {
    var line := RequestLine(h);
    assert forall i :: 0 <= i < |h.verb| ==> IsAlpha(h.verb[i]);
    assert SP !in h.verb && OneLine(h.verb);
    VersionIsPlain(h.version);
    assert line == h.verb + [SP] + (h.target + [SP] + h.version);
    SplitSpacesFirst(h.verb, h.target + [SP] + h.version);
    SplitSpacesFirst(h.target, h.version);
    SplitSpacesNone(h.version);
  }

  lemma PrintableParts(h: Head)
    requires Printable(h)
    ensures AllClean(h.headers)
  {
  }

  lemma VersionIsPlain(v: Str)
    requires Version(v)
    ensures OneLine(v) && SP !in v && Latin1(v)
  {
    assert v == [72, 84, 84, 80, 47, 49, 46, 48] || v == [72, 84, 84, 80, 47, 49, 46, 49];
  }

  /** Reading back a printed head gives the head, and the reader stops at its end. */
  lemma PrintedHeadParses(h: Head, rest: Bytes)
    requires Printable(h)
    ensures ParseHead(PrintHead(h)) == Some(h)
    ensures ReadHead(PrintHead(h) + rest) == Some(PrintHead(h))
  {
    hide ReadHead, SplitLines, JoinLines, ParseFields, Printable, RequestLine, PrintAll, ParseRequestLine;
    var lines := [RequestLine(h)] + PrintFields(h.headers);
    PrintableParts(h);
    RequestLineParses(h);
    PrintedFieldsParse(h.headers);
    PrintIsJoin(RequestLine(h), h.headers);
    var text := PrintHead(h);
    assert text == JoinLines(lines) + BLANK;
    HeadEndsOnce(lines, rest);
    SplitJoin(lines);
    assert WithoutBlank(text) == JoinLines(lines);
    assert lines[1..] == PrintFields(h.headers);
  }

  // ----- what the parser hands on

  lemma {:induction false} SplitLinesLatin1(s: Str)
    requires Latin1(s)
    ensures forall i :: 0 <= i < |SplitLines(s)| ==> Latin1(SplitLines(s)[i])
  {
    if |s| >= 2 {
      SplitLinesLatin1(if s[..2] == CRLF then s[2..] else s[1..]);
    }
  }

  lemma {:induction false} SplitSpacesLatin1(s: Str)
    requires Latin1(s)
    ensures forall i :: 0 <= i < |SplitSpaces(s)| ==> Latin1(SplitSpaces(s)[i])
  {
    if s != [] {
      SplitSpacesLatin1(s[1..]);
    }
  }

  predicate AllLatin1(hs: seq<Header>) {
    forall i :: 0 <= i < |hs| ==> Latin1(hs[i].name) && Latin1(hs[i].value)
  }

  lemma FieldLatin1(line: Str)
    requires Latin1(line) && ParseField(line).Some?
    ensures Latin1(ParseField(line).value.name) && Latin1(ParseField(line).value.value)
  {
    hide Strip;
    var value := line[FirstColon(line) + 1..];
    var pre, post := StripParts(value);
    assert forall i :: 0 <= i < |Strip(value)| ==> Strip(value)[i] == value[|pre| + i];
  }

  lemma {:induction false} FieldsLatin1(lines: seq<Str>)
    requires forall i :: 0 <= i < |lines| ==> Latin1(lines[i])
    requires ParseFields(lines).Some?
    ensures AllLatin1(ParseFields(lines).value)
  {
    hide ParseField, Latin1;
    if lines != [] {
      FieldsLatin1(lines[..|lines| - 1]);
      FieldLatin1(lines[|lines| - 1]);
    }
  }

  lemma {:induction false} UpperLatin1(s: Str)
    requires (s == [] || AllAlpha(s)) && Latin1(s)
    ensures Latin1(Upper(s)) <==> MICRO !in s && Y_DIAERESIS !in s
  {
    if s != [] {
      UpperLatin1(s[1..]);
      var u := UpperChar(s[0]);
      assert Latin1(u + Upper(s[1..])) <==> Latin1(u) && Latin1(Upper(s[1..])) by {
        Latin1Concat(u, Upper(s[1..]));
      }
      assert Latin1(u) <==> s[0] != MICRO && s[0] != Y_DIAERESIS by {
        assert u[0] in u;
      }
      assert s == [s[0]] + s[1..];
    }
  }

  lemma Latin1Concat(a: Str, b: Str)
    ensures Latin1(a + b) <==> Latin1(a) && Latin1(b)
  {
    if Latin1(a + b) {
      assert forall i :: 0 <= i < |a| ==> a[i] == (a + b)[i];
      assert forall i :: 0 <= i < |b| ==> b[i] == (a + b)[|a| + i];
    }
  }

  lemma {:induction false} PrintAllLatin1(hs: seq<Header>)
    requires AllLatin1(hs)
    ensures Latin1(PrintAll(hs))
  {
    if hs != [] {
      PrintAllLatin1(hs[1..]);
    }
  }

  /** The method as the client wrote it. */
  function SentVerb(raw: Bytes): Str {
    SplitSpaces(SplitLines(WithoutBlank(raw))[0])[0]
  }

  lemma ParsedParts(raw: Bytes)
    requires Latin1(raw) && ParseHead(raw).Some?
    ensures var h := ParseHead(raw).value;
            && AllAlpha(SentVerb(raw)) && h.verb == Upper(SentVerb(raw)) && Latin1(SentVerb(raw))
            && Version(h.version) && AllClean(h.headers) && AllLatin1(h.headers)
  {
    hide SplitLines, ParseFields, Clean, Version, Latin1, AllAlpha;
    var lines := SplitLines(WithoutBlank(raw));
    ShorterLatin1(raw);
    SplitLinesLatin1(WithoutBlank(raw));
    SplitSpacesLatin1(lines[0]);
    ParsedFieldsClean(lines[1..]);
    FieldsLatin1(lines[1..]);
  }

  lemma ShorterLatin1(raw: Bytes)
    requires Latin1(raw)
    ensures Latin1(WithoutBlank(raw))
  {
  }

  lemma ParsedIsPrintable(raw: Bytes, t: Target)
    requires Latin1(raw) && UsableTarget(t) && ParseHead(raw).Some?
    ensures var h := ParseHead(raw).value;
            var out := h.(target := t.path, headers := Outgoing(h.headers, t.authority));
            && Printable(out)
            && (Latin1(PrintHead(out)) <==> MICRO !in SentVerb(raw) && Y_DIAERESIS !in SentVerb(raw))
  {
    hide ParseHead, SentVerb, Upper, AllAlpha, Clean, PrintAll, Outgoing, Stripped, Latin1, Version;
    var h := ParseHead(raw).value;
    var out := h.(target := t.path, headers := Outgoing(h.headers, t.authority));
    ParsedParts(raw);
    UpperIdempotent(SentVerb(raw));
    UpperLatin1(SentVerb(raw));
    OutgoingClean(h.headers, t.authority);
    PrintAllLatin1(out.headers);
    VersionIsPlain(h.version);
    BreaksLatin1();
    var rest := [SP] + t.path + [SP] + h.version + CRLF + PrintAll(out.headers) + CRLF;
    Latin1Concat([SP], t.path);
    Latin1Concat([SP] + t.path, [SP]);
    Latin1Concat([SP] + t.path + [SP], h.version);
    Latin1Concat([SP] + t.path + [SP] + h.version, CRLF);
    Latin1Concat([SP] + t.path + [SP] + h.version + CRLF, PrintAll(out.headers));
    Latin1Concat([SP] + t.path + [SP] + h.version + CRLF + PrintAll(out.headers), CRLF);
    assert PrintHead(out) == h.verb + rest;
    Latin1Concat(h.verb, rest);
  }

  lemma BreaksLatin1()
    ensures Latin1([SP]) && Latin1(CRLF)
  {
  }

  lemma OutgoingClean(hs: seq<Header>, authority: Str)
    requires AllClean(hs) && OneLine(authority) && Stripped(authority)
    requires AllLatin1(hs) && Latin1(authority)
    ensures AllClean(Outgoing(hs, authority)) && AllLatin1(Outgoing(hs, authority))
  {
    hide Clean, Latin1, OneLine, Stripped;
    var host := Header(Ascii("Host"), authority);
    HostIsClean(authority);
    ForwardedKeeps(hs);
    ForwardedLatin1(hs);
  }

  lemma HostIsClean(authority: Str)
    requires OneLine(authority) && Stripped(authority) && Latin1(authority)
    ensures var h := Header(Ascii("Host"), authority); Clean(h) && Latin1(h.name) && Latin1(h.value)
    ensures Clean(CONNECTION_CLOSE) && Latin1(CONNECTION_CLOSE.name) && Latin1(CONNECTION_CLOSE.value)
  {
    KnownNames();
  }

  lemma {:induction false} ForwardedLatin1(hs: seq<Header>)
    requires AllLatin1(hs)
    ensures AllLatin1(Forwarded(hs))
  {
    if hs != [] {
      ForwardedLatin1(hs[1..]);
    }
  }

  /** MAIN: for every head that is forwarded and whatever follows it, the next hop reads exactly
      the printed head, and parses it to the same method and version, the target's path, and
      exactly the outgoing fields. */
  lemma HeadRoundTrip(raw: Bytes, t: Target, rest: Bytes)
    requires (forall i :: 0 <= i < |raw| ==> 0 <= raw[i] <= 0xFF) && UsableTarget(t) && ForwardHead(raw, t).Forward?
    ensures var h := ParseHead(raw).value;
            var out := ForwardHead(raw, t).head;
            && ReadHead(out + rest) == Some(out)
            && ParseHead(out) == Some(Head(h.verb, t.path, h.version, Outgoing(h.headers, t.authority)))
  {
    var h := ParseHead(raw).value;
    ParsedIsPrintable(raw, t);
    PrintedHeadParses(h.(target := t.path, headers := Outgoing(h.headers, t.authority)), rest);
  }

  /** A head is forwarded if and only if it parses, names its host at most once and rightly,
      asks for neither `Expect` nor `Upgrade`, and its method has a latin-1 capital form. */
  lemma ForwardedExactly(raw: Bytes, t: Target)
    requires (forall i :: 0 <= i < |raw| ==> 0 <= raw[i] <= 0xFF) && UsableTarget(t)
    ensures ForwardHead(raw, t).Forward? <==>
            && ParseHead(raw).Some?
            && var hs := ParseHead(raw).value.headers;
            && |Values(hs, Ascii("host"))| <= 1
            && (forall v :: v in Values(hs, Ascii("host")) ==> t.matches(v))
            && Values(hs, Ascii("expect")) == [] && Values(hs, Ascii("upgrade")) == []
            && MICRO !in SentVerb(raw) && Y_DIAERESIS !in SentVerb(raw)
  {
    hide ParseHead, PrintHead, Outgoing, Values, SentVerb, Printable;
    if ParseHead(raw).Some? {
      ParsedIsPrintable(raw, t);
      var hosts := Values(ParseHead(raw).value.headers, Ascii("host"));
      if |hosts| == 1 {
        assert hosts[0] in hosts;
        assert forall v :: v in hosts ==> v == hosts[0];
      }
    }
  }

  // ----- what a head is

  lemma TokenMarks(c: int)
    ensures c in Ascii("!#$%&'*+.^_`|~-") <==>
            c in {0x21, 0x23, 0x24, 0x25, 0x26, 0x27, 0x2A, 0x2B, 0x2E, 0x5E, 0x5F, 0x60, 0x7C, 0x7E, 0x2D}
  {
    var t := Ascii("!#$%&'*+.^_`|~-");
    assert t[0] == 0x21 && t[1] == 0x23 && t[2] == 0x24 && t[3] == 0x25 && t[4] == 0x26 && t[5] == 0x27;
    assert t[6] == 0x2A && t[7] == 0x2B && t[8] == 0x2E && t[9] == 0x5E && t[10] == 0x5F && t[11] == 0x60;
    assert t[12] == 0x7C && t[13] == 0x7E && t[14] == 0x2D;
    assert |t| == 15;
  }

  lemma Delimiters(c: int)
    ensures c in Ascii("\"(),/:;<=>?@[\\]{}") <==>
            c in {0x22, 0x28, 0x29, 0x2C, 0x2F, 0x3A, 0x3B, 0x3C, 0x3D, 0x3E, 0x3F, 0x40, 0x5B, 0x5C, 0x5D, 0x7B, 0x7D}
  {
    var d := Ascii("\"(),/:;<=>?@[\\]{}");
    assert d[0] == 0x22 && d[1] == 0x28 && d[2] == 0x29 && d[3] == 0x2C && d[4] == 0x2F && d[5] == 0x3A;
    assert d[6] == 0x3B && d[7] == 0x3C && d[8] == 0x3D && d[9] == 0x3E && d[10] == 0x3F && d[11] == 0x40;
    assert d[12] == 0x5B && d[13] == 0x5C && d[14] == 0x5D && d[15] == 0x7B && d[16] == 0x7D;
    assert |d| == 17;
  }

  /** A token character is a visible ASCII character that is no delimiter (section 5.6.2 of RFC 9110). */
  lemma TokenExactly(c: int)
    ensures TokenChar(c) <==> 0x21 <= c <= 0x7E && c !in Ascii("\"(),/:;<=>?@[\\]{}")
  {
    hide Ascii;
    TokenMarks(c);
    Delimiters(c);
  }

  const SMALL: Str := Ascii("abcdefghijklmnopqrstuvwxyz")
  const LARGE: Str := Ascii("ABCDEFGHIJKLMNOPQRSTUVWXYZ")

  lemma LetterAt(k: int)
    requires 0 <= k < 26
    ensures |SMALL| == |LARGE| == 26 && SMALL[k] == 'a' as int + k && LARGE[k] == 'A' as int + k
  {
  }

  /** Folding and capitals exchange the letters of ASCII with one another and leave its other
      characters alone; the other capitals of latin-1 stand 32 before their small letters, sharp s
      has two letters, and two small letters have capitals outside. */
  lemma CasesExactly(k: int, c: int)
    requires 0 <= k < 26
    ensures LowerChar(LARGE[k]) == SMALL[k] && LowerChar(SMALL[k]) == SMALL[k]
    ensures UpperChar(SMALL[k]) == [LARGE[k]] && UpperChar(LARGE[k]) == [LARGE[k]]
    ensures 0 <= c < 128 && c !in LARGE ==> LowerChar(c) == c
    ensures 0xC0 <= c < 0xDF && c != 0xD7 ==> UpperChar(c) == [c] && UpperChar(c + 0x20) == [c]
    ensures UpperChar(0xDF) == Ascii("SS") && UpperChar(0xAA) == [0xAA] && UpperChar(0xBA) == [0xBA]
    ensures UpperChar(MICRO) == [0x39C] && UpperChar(Y_DIAERESIS) == [0x178]
  {
    hide SMALL, LARGE;
    LetterAt(k);
    if 'A' as int <= c <= 'Z' as int {
      LetterAt(c - 'A' as int);
    }
  }

  /** The same letters in either case, and the same other characters. */
  ghost predicate SameName(name: Str, folded: Str) {
    |name| == |folded| && forall i :: 0 <= i < |name| ==> SameLetter(name[i], folded[i])
  }

  ghost predicate SameLetter(c: int, f: int) {
    (c == f && c !in LARGE) || exists k :: 0 <= k < 26 && c == LARGE[k] && f == SMALL[k]
  }

  lemma LetterExactly(c: int, f: int)
    ensures LowerChar(c) == f <==> SameLetter(c, f)
  {
    hide LARGE, SMALL;
    LargeLetters();
    if 'A' as int <= c <= 'Z' as int {
      LetterAt(c - 'A' as int);
    }
  }

  lemma LargeLetters()
    ensures |LARGE| == |SMALL| == 26
    ensures forall k :: 0 <= k < 26 ==> LARGE[k] == 'A' as int + k && SMALL[k] == 'a' as int + k
  {
    hide LARGE, SMALL;
    LetterAt(0);
    forall k | 0 <= k < 26 ensures LARGE[k] == 'A' as int + k && SMALL[k] == 'a' as int + k {
      LetterAt(k);
    }
  }

  /** MAIN: the values of a name are those of the fields of that name in any case, in order. */
  lemma ValuesExactly(h: Header, more: seq<Header>, n: Str)
    ensures Values([h] + more, n) == (if SameName(h.name, n) then [h.value] else []) + Values(more, n)
    ensures Values([], n) == []
  {
    hide LowerChar, SameLetter;
    forall c, f ensures LowerChar(c) == f <==> SameLetter(c, f) {
      LetterExactly(c, f);
    }
    assert ([h] + more)[1..] == more;
    assert Fold(h.name) == n <==> SameName(h.name, n);
  }

  predicate NoBreak(s: Str) {
    forall i :: 0 <= i < |s| - 1 ==> s[i] != CR || s[i + 1] != LF
  }

  /** Lines are what the line breaks part. */
  lemma {:induction false} LinesExactly(s: Str)
    ensures JoinLines(SplitLines(s)) == s
    ensures forall i :: 0 <= i < |SplitLines(s)| ==> NoBreak(SplitLines(s)[i])
    ensures s != [] && SplitLines(s)[0] != [] ==> SplitLines(s)[0][0] == s[0]
    ensures |s| >= 2 && s[..2] != CRLF && |SplitLines(s)[0]| > 1 ==> SplitLines(s)[0][1] == s[1]
  {
    if |s| < 2 {
    } else if s[..2] == CRLF {
      LinesExactly(s[2..]);
      assert s == CRLF + s[2..];
      assert ([[]] + SplitLines(s[2..]))[1..] == SplitLines(s[2..]);
    } else {
      LinesExactly(s[1..]);
      var rest := SplitLines(s[1..]);
      var lines := [[s[0]] + rest[0]] + rest[1..];
      FirstLonger(rest, s[0]);
      assert s == [s[0]] + s[1..];
      forall i | 0 <= i < |lines| ensures NoBreak(lines[i]) {
        if i == 0 {
          OneBefore(s[0], rest[0], s);
        } else {
          assert lines[i] == rest[i];
        }
      }
    }
  }

  lemma FirstLonger(rest: seq<Str>, c: int)
    requires rest != []
    ensures JoinLines([[c] + rest[0]] + rest[1..]) == [c] + JoinLines(rest)
  {
    var lines := [[c] + rest[0]] + rest[1..];
    if |rest| > 1 {
      assert lines[1..] == rest[1..];
      assert [c] + rest[0] + CRLF + JoinLines(rest[1..]) == [c] + (rest[0] + CRLF + JoinLines(rest[1..]));
    }
  }

  lemma OneBefore(c: int, line: Str, s: Str)
    requires NoBreak(line) && |s| >= 2 && s[0] == c && s[..2] != CRLF && (line != [] ==> line[0] == s[1])
    ensures NoBreak([c] + line)
  {
    var l := [c] + line;
    forall i | 0 <= i < |l| - 1 ensures l[i] != CR || l[i + 1] != LF {
      if i == 0 {
        assert s[..2] == [s[0], s[1]];
      } else {
        assert l[i] == line[i - 1] && l[i + 1] == line[i];
      }
    }
  }

  function JoinSpaces(pieces: seq<Str>): Str
    requires pieces != []
  {
    if |pieces| == 1 then pieces[0] else pieces[0] + [SP] + JoinSpaces(pieces[1..])
  }

  lemma {:induction false} SpacesExactly(s: Str)
    ensures |SplitSpaces(s)| >= 1 && JoinSpaces(SplitSpaces(s)) == s
    ensures forall i :: 0 <= i < |SplitSpaces(s)| ==> SP !in SplitSpaces(s)[i]
  {
    if s != [] {
      SpacesExactly(s[1..]);
      var rest := SplitSpaces(s[1..]);
      assert s == [s[0]] + s[1..];
      if s[0] == SP {
        assert ([[]] + rest)[1..] == rest;
      } else {
        var pieces := [[s[0]] + rest[0]] + rest[1..];
        if |rest| > 1 {
          assert pieces[1..] == rest[1..];
          assert [s[0]] + rest[0] + [SP] + JoinSpaces(rest[1..]) == [s[0]] + (rest[0] + [SP] + JoinSpaces(rest[1..]));
        }
      }
    }
  }

  /** The line is a method in letters, a target and a version, with one space between them. */
  ghost predicate IsRequestLine(line: Str, letters: Str, verb: Str, target: Str, version: Str) {
    && line == letters + [SP] + target + [SP] + version
    && AllAlpha(letters) && SP !in target && verb == Upper(letters)
    && (version == Ascii("HTTP/1.0") || version == Ascii("HTTP/1.1"))
  }

  /** MAIN: a request line is read as a method, a target and a version if and only if it is these. */
  lemma RequestLineExactly(line: Str, verb: Str, target: Str, version: Str)
    ensures ParseRequestLine(line) == Some((verb, target, version)) <==>
            exists letters :: IsRequestLine(line, letters, verb, target, version)
  {
    hide Upper;
    if ParseRequestLine(line) == Some((verb, target, version)) {
      var ps := SplitSpaces(line);
      SpacesExactly(line);
      ThreePieces(ps);
      assert IsRequestLine(line, ps[0], verb, target, version);
    }
    if letters :| IsRequestLine(line, letters, verb, target, version) {
      LettersHaveNoSpace(letters);
      VersionHasNoSpace(version);
      assert line == letters + [SP] + (target + [SP] + version);
      SplitSpacesFirst(letters, target + [SP] + version);
      SplitSpacesFirst(target, version);
      SplitSpacesNone(version);
      assert SplitSpaces(line) == [letters] + ([target] + [version]);
    }
  }

  lemma ThreePieces(ps: seq<Str>)
    requires |ps| == 3
    ensures JoinSpaces(ps) == ps[0] + [SP] + ps[1] + [SP] + ps[2]
  {
    var rest := ps[1..];
    assert rest[1..] == [ps[2]] && JoinSpaces(rest[1..]) == ps[2];
    assert JoinSpaces(rest) == ps[1] + [SP] + ps[2];
    assert ps[0] + [SP] + (ps[1] + [SP] + ps[2]) == ps[0] + [SP] + ps[1] + [SP] + ps[2];
  }

  lemma LettersHaveNoSpace(s: Str)
    requires AllAlpha(s)
    ensures SP !in s
  {
    forall i | 0 <= i < |s| ensures s[i] != SP {
      assert IsAlpha(s[i]);
    }
  }

  lemma VersionHasNoSpace(v: Str)
    requires v == Ascii("HTTP/1.0") || v == Ascii("HTTP/1.1")
    ensures SP !in v
  {
    assert |v| == 8 && v[0] == 72 && v[1] == 84 && v[2] == 84 && v[3] == 80 && v[4] == 47 && v[5] == 49 && v[6] == 46;
  }

  /** MAIN: a head parses if and only if its first line is a request line and each of the others a
      field line, in their order. */
  lemma ParseHeadExactly(raw: Bytes, h: Head)
    ensures var lines := SplitLines(WithoutBlank(raw));
            ParseHead(raw) == Some(h) <==>
              && ParseRequestLine(lines[0]) == Some((h.verb, h.target, h.version))
              && |h.headers| == |lines| - 1
              && forall i :: 0 <= i < |h.headers| ==> ParseField(lines[i + 1]) == Some(h.headers[i])
  {
    hide SplitLines, ParseField, SplitSpaces;
    var lines := SplitLines(WithoutBlank(raw));
    FieldsExactly(lines[1..], h.headers);
    EmptyLineIsNone();
    assert forall i :: 0 <= i < |lines| - 1 ==> lines[1..][i] == lines[i + 1];
  }

  lemma EmptyLineIsNone()
    ensures ParseRequestLine([]) == None
  {
    SplitSpacesNone([]);
  }

  lemma {:induction false} FieldsExactly(lines: seq<Str>, hs: seq<Header>)
    ensures ParseFields(lines) == Some(hs) <==>
            |hs| == |lines| && forall i :: 0 <= i < |lines| ==> ParseField(lines[i]) == Some(hs[i])
    decreases |lines|
  {
    hide ParseField;
    if lines != [] {
      var last := |lines| - 1;
      if hs != [] {
        FieldsExactly(lines[..last], hs[..|hs| - 1]);
        assert hs == hs[..|hs| - 1] + [hs[|hs| - 1]];
      }
      if ParseFields(lines[..last]).Some? && ParseField(lines[last]).Some? {
        var front := ParseFields(lines[..last]).value;
        FieldsExactly(lines[..last], front);
        assert (front + [ParseField(lines[last]).value])[..|front|] == front;
      }
    }
  }

  /** Which status a head that is not forwarded is refused with: 417 for `Expect` when its host is
      right, and else 400. */
  lemma RefusedWith(raw: Bytes, t: Target)
    ensures var r := ForwardHead(raw, t);
            && (r.Refuse? ==> r.status == 400 || r.status == 417)
            && (r == Refuse(417) <==>
                  && ParseHead(raw).Some?
                  && var hs := ParseHead(raw).value.headers;
                  && |Values(hs, Ascii("host"))| <= 1
                  && (forall v :: v in Values(hs, Ascii("host")) ==> t.matches(v))
                  && Values(hs, Ascii("expect")) != [])
  {
    hide ParseHead, Values, PrintHead, Outgoing;
    if ParseHead(raw).Some? {
      var hosts := Values(ParseHead(raw).value.headers, Ascii("host"));
      if |hosts| == 1 {
        assert hosts[0] in hosts;
        assert forall v :: v in hosts ==> v == hosts[0];
      }
    }
  }
}
