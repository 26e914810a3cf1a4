/** Forwarding a request body through the proxy: `_copy_exact` and `_copy_chunked_body` over a
    stream that is read in arbitrary amounts, under byte budgets other connections also use. */
module ProxyFraming {
  import opened Text

  const LF := 0x0A
  const CRLF: Bytes := [0x0D, 0x0A]
  const SEMICOLON := ';' as int

  // ----- chunk sizes

  /** White space as `bytes.strip` removes it. */
  predicate IsBlank(c: int) {
    c == 0x20 || 0x09 <= c <= 0x0D
  }

  function StripFront(s: Bytes): (r: Bytes)
    ensures |r| <= |s|
  {
    if s != [] && IsBlank(s[0]) then StripFront(s[1..]) else s
  }

  function StripBack(s: Bytes): (r: Bytes)
    ensures |r| <= |s|
  {
    if s != [] && IsBlank(s[|s| - 1]) then StripBack(s[..|s| - 1]) else s
  }

  /** `line.split(b";", 1)[0]`. */
  function BeforeSemicolon(s: Bytes): (r: Bytes)
    ensures r <= s
  {
    if s == [] || s[0] == SEMICOLON then [] else [s[0]] + BeforeSemicolon(s[1..])
  }

  function HexValue(c: int): Option<int> {
    if IsDigit(c) then Some(c - '0' as int)
    else if 'a' as int <= c <= 'f' as int then Some(c - 'a' as int + 10)
    else if 'A' as int <= c <= 'F' as int then Some(c - 'A' as int + 10)
    else None
  }

  /** Hexadecimal digits, single underscores allowed between two of them; `value` is what the
      digits before stand for. */
  function Digits(s: Bytes, value: int): Option<int> {
    if s == [] then None
    else
      match HexValue(s[0])
      case None => None
      case Some(d) =>
        var v := 16 * value + d;
        if |s| == 1 then Some(v)
        else if s[1] == '_' as int then Digits(s[2..], v)
        else Digits(s[1..], v)
  }

  predicate HexPrefix(s: Bytes) {
    |s| >= 2 && s[0] == '0' as int && (s[1] == 'x' as int || s[1] == 'X' as int)
  }

  /** `int(s, 16)` of a stripped byte string: a sign, 0x and underscores are accepted. */
  function PythonHex(s: Bytes): Option<int> {
    var signed := s != [] && (s[0] == '+' as int || s[0] == '-' as int);
    var t := if signed then s[1..] else s;
    var u := if HexPrefix(t) then (if |t| > 2 && t[2] == '_' as int then t[3..] else t[2..]) else t;
    match Digits(u, 0)
    case None => None
    case Some(v) => Some(if signed && s[0] == '-' as int then -v else v)
  }

  function ChunkSize(line: Bytes): Option<int> {
    PythonHex(StripBack(StripFront(BeforeSemicolon(line))))
  }

  // ----- the message at the front of a stream

  /** The position after the first line feed from i on, or the end: what `readline` consumes. */
  function LineEnd(s: Bytes, i: nat): (r: nat)
    requires i <= |s|
    ensures i <= r <= |s|
    ensures i < |s| ==> i < r
    decreases |s| - i
  {
    if i == |s| then i else if s[i] == LF then i + 1 else LineEnd(s, i + 1)
  }

  /** The end of the chunked message whose next chunk starts at i, when the size lines and
      trailers before took h bytes; None when the proxy refuses it. */
  function Frame(s: Bytes, i: nat, h: nat, max: nat): (r: Option<nat>)
    requires i <= |s|
    ensures r.Some? ==> i < r.value <= |s|
    decreases |s| - i
  {
    var e := LineEnd(s, i);
    if e == i || e - i > max then None
    else
      match ChunkSize(s[i..e])
      case None => None
      case Some(size) =>
        if size < 0 then None
        else if size == 0 then Trailers(s, e, h + (e - i), max)
        else if e + size + 2 > |s| then None
        else Frame(s, e + size + 2, h + (e - i), max)
  }

  function Trailers(s: Bytes, i: nat, h: nat, max: nat): (r: Option<nat>)
    requires i <= |s|
    ensures r.Some? ==> i < r.value <= |s|
    decreases |s| - i
  {
    var e := LineEnd(s, i);
    if e == i || h + (e - i) > max then None
    else if s[i..e] == CRLF then Some(e)
    else Trailers(s, e, h + (e - i), max)
  }

  // ----- a connection

  const READ_CHUNK: nat := 65536

  class Connection {
    var input: Bytes                 // what the peer still sends, then end of stream
    var output: Bytes                // what was written upstream
    var used: nat                    // bytes this connection has charged
    const limit: nat                 // its own limit
    const globalLimit: nat           // the limit all connections share
    const maxHeader: nat
    const othersMax: nat             // the others never hold more than this

    constructor (bytes: Bytes, ownLimit: nat, total: nat, header: nat, others: nat)
      ensures input == bytes && output == [] && used == 0
      ensures limit == ownLimit && globalLimit == total && maxHeader == header && othersMax == others
    {
      input, output, used := bytes, [], 0;
      limit, globalLimit, maxHeader, othersMax := ownLimit, total, header, others;
    }

    /** The budgets certainly allow n more bytes. */
    predicate Allows(n: nat)
      reads this`used
    {
      used + n <= limit && used + n + othersMax <= globalLimit
    }

    /** `budget.add`, while the other connections hold any amount up to othersMax. */
    method Charge(size: nat) returns (ok: bool)
      modifies this`used
      ensures used == old(used) + (if ok then size else 0)
      ensures ok ==> used <= limit && used <= globalLimit
      ensures old(Allows(size)) ==> ok
    {
      var others: nat :| others <= othersMax;
      ok := used + size <= limit && others + used + size <= globalLimit;
      if ok {
        used := used + size;
      }
    }

    /** `reader.read(n)`: any non-empty part of what comes next, empty at the end only. */
    method Read(n: nat) returns (chunk: Bytes)
      requires n >= 1
      modifies this`input
      ensures old(input) == chunk + input && |chunk| <= n
      ensures chunk == [] <==> old(input) == []
    {
      if input == [] {
        return [];
      }
      var k: nat :| 1 <= k <= n && k <= |input|;
      chunk := input[..k];
      input := input[k..];
      assert old(input) == chunk + input;
    }

    /** `reader.readline()`. */
    method ReadLine() returns (line: Bytes)
      modifies this`input
      ensures old(input) == line + input
      ensures |line| == LineEnd(old(input), 0)
    {
      var e := LineEnd(input, 0);
      line := input[..e];
      input := input[e..];
    }

    /** The first k bytes of what was to be read have been read, written and charged. */
    ghost predicate Forwarded(s: Bytes, out: Bytes, charged: nat, k: nat)
      reads this
    {
      k <= |s| && input == s[k..] && output == out + s[..k] && used == charged + k
    }

    /** Some k bytes were written and charged, and no byte was written that was not read. */
    ghost predicate Stopped(s: Bytes, out: Bytes, charged: nat)
      reads this
    {
      exists k: nat :: WroteOnly(s, out, charged, k)
    }

    ghost predicate WroteOnly(s: Bytes, out: Bytes, charged: nat, k: nat)
      reads this
    {
      && |input| <= |s| && input == s[|s| - |input|..]
      && k <= |s| - |input| && output == out + s[..k] && used == charged + k
    }

    /** `_copy_exact`: from position k of s, `remaining` bytes more. */
    method CopyExact(remaining: nat, ghost s: Bytes, ghost out: Bytes, ghost charged: nat, ghost k: nat) returns (ok: bool)
      requires Forwarded(s, out, charged, k)
      modifies this`input, this`output, this`used
      ensures ok ==> k + remaining <= |s| && Forwarded(s, out, charged, k + remaining)
      ensures ok && remaining > 0 ==> used <= limit && used <= globalLimit
      ensures !ok ==> Stopped(s, out, charged)
      ensures old(Allows(remaining)) && k + remaining <= |s| ==> ok
    {
      var left: nat := remaining;
      ghost var j := k;
      while left > 0
        invariant j + left == k + remaining
        invariant Forwarded(s, out, charged, j)
        invariant old(Allows(remaining)) ==> Allows(left)
        invariant j > k ==> used <= limit && used <= globalLimit
      {
        var chunk := Read(if left < READ_CHUNK then left else READ_CHUNK);
        assert s[j..] == chunk + input;
        if chunk == [] {
          assert WroteOnly(s, out, charged, j);
          return false;
        }
        assert chunk == s[j..j + |chunk|] && input == s[j + |chunk|..];
        var charged' := Charge(|chunk|);
        if !charged' {
          assert WroteOnly(s, out, charged, j);
          return false;
        }
        output := output + chunk;
        assert s[..j + |chunk|] == s[..j] + chunk;
        j := j + |chunk|;
        left := left - |chunk|;
      }
      return true;
    }

    /** Read one line, from position k of s. */
    method NextLine(ghost s: Bytes, ghost out: Bytes, ghost charged: nat, ghost k: nat) returns (line: Bytes)
      requires Forwarded(s, out, charged, k)
      modifies this`input
      ensures k <= LineEnd(s, k) && line == s[k..LineEnd(s, k)] && input == s[LineEnd(s, k)..]
      ensures WroteOnly(s, out, charged, k) && Stopped(s, out, charged)
    {
      LineEndShift(s, k);
      line := ReadLine();
      assert s[k..] == line + input;
      assert line == s[k..k + |line|] && input == s[k + |line|..];
      assert WroteOnly(s, out, charged, k);
    }

    /** Charge and write a line that was just read. */
    method WriteLine(line: Bytes, ghost s: Bytes, ghost out: Bytes, ghost charged: nat, ghost k: nat) returns (ok: bool)
      requires WroteOnly(s, out, charged, k) && k + |line| <= |s|
      requires line == s[k..k + |line|] && input == s[k + |line|..]
      modifies this`output, this`used
      ensures ok ==> Forwarded(s, out, charged, k + |line|) && used <= limit && used <= globalLimit
      ensures !ok ==> Stopped(s, out, charged)
      ensures old(Allows(|line|)) ==> ok
    {
      ok := Charge(|line|);
      if !ok {
        assert WroteOnly(s, out, charged, k);
        return false;
      }
      output := output + line;
      assert s[..k + |line|] == s[..k] + line;
    }

    lemma ForwardedStops(s: Bytes, out: Bytes, charged: nat, k: nat)
      requires Forwarded(s, out, charged, k)
      ensures Stopped(s, out, charged)
    {
      assert WroteOnly(s, out, charged, k);
    }

    /** A chunk-size line, from position k of s. */
    method CopySizeLine(ghost s: Bytes, ghost out: Bytes, ghost charged: nat, ghost k: nat)
      returns (ok: bool, line: Bytes)
      requires Forwarded(s, out, charged, k)
      modifies this`input, this`output, this`used
      ensures k <= LineEnd(s, k) && line == s[k..LineEnd(s, k)]
      ensures ok ==> line != [] && |line| <= maxHeader
      ensures ok ==> Forwarded(s, out, charged, k + |line|) && used <= limit && used <= globalLimit
      ensures !ok ==> Stopped(s, out, charged)
      ensures line != [] && |line| <= maxHeader && old(Allows(|line|)) ==> ok
    {
      line := NextLine(s, out, charged, k);
      if line == [] || |line| > maxHeader {
        return false, line;
      }
      ok := WriteLine(line, s, out, charged, k);
    }

    /** The inner loop of `_copy_chunked_body`. */
    method CopyTrailers(start: nat, ghost s: Bytes, ghost out: Bytes, ghost charged: nat, ghost k: nat)
      returns (ok: bool, ghost end: nat)
      requires Forwarded(s, out, charged, k)
      modifies this`input, this`output, this`used
      ensures var f := Trailers(s, k, start, maxHeader);
              && (ok ==> f == Some(end) && Forwarded(s, out, charged, end) && used <= limit && used <= globalLimit)
              && (!ok ==> Stopped(s, out, charged))
              && (f.Some? && old(Allows(f.value - k)) ==> ok)
    {
      hide LineEnd, Stopped;
      ghost var i, goal := k, Trailers(s, k, start, maxHeader);
      var trailerBytes: nat := start;
      while true
        invariant Forwarded(s, out, charged, i) && i >= k
        invariant Trailers(s, i, trailerBytes, maxHeader) == goal
        decreases |s| - i
      {
        var line := NextLine(s, out, charged, i);
        trailerBytes := trailerBytes + |line|;
        if line == [] || trailerBytes > maxHeader {
          return false, 0;
        }
        var written := WriteLine(line, s, out, charged, i);
        if !written {
          return false, 0;
        }
        i := i + |line|;
        if line == CRLF {
          return true, i;
        }
      }
    }

    /** MAIN: `_copy_chunked_body`. Whatever the read sizes, success forwards exactly the
        message that Frame delimits and leaves exactly the rest; it succeeds whenever there is
        such a message and the budgets allow it; on failure nothing unread was written. */
    method CopyChunkedBody() returns (ok: bool)
      modifies this`input, this`output, this`used
      ensures var s, f := old(input), Frame(old(input), 0, 0, maxHeader);
              && (ok ==> f.Some? && Forwarded(s, old(output), old(used), f.value) && used <= limit && used <= globalLimit)
              && (f.Some? && old(Allows(f.value)) ==> ok)
              && (!ok ==> Stopped(s, old(output), old(used)))
    {
      hide LineEnd, ChunkSize, Trailers, Stopped;
      ghost var s, out, charged := input, output, used;
      ghost var i, goal := 0, Frame(s, 0, 0, maxHeader);
      var trailerBytes: nat := 0;
      while true
        invariant Forwarded(s, out, charged, i)
        invariant Frame(s, i, trailerBytes, maxHeader) == goal
        decreases |s| - i
      {
        var line;
        ok, line := CopySizeLine(s, out, charged, i);
        if !ok {
          return;
        }
        i := i + |line|;
        trailerBytes := trailerBytes + |line|;
        var size := ChunkSize(line);
        if size == None || size.value < 0 {
          ForwardedStops(s, out, charged, i);
          return false;
        }
        if size.value == 0 {
          ghost var end;
          ok, end := CopyTrailers(trailerBytes, s, out, charged, i);
          return;
        }
        ok := CopyExact(size.value + 2, s, out, charged, i);
        if !ok {
          return;
        }
        i := i + size.value + 2;
      }
    }
  }

  lemma {:induction false} LineEndShift(s: Bytes, i: nat)
    requires i <= |s|
    ensures LineEnd(s, i) == i + LineEnd(s[i..], 0)
  {
    LineEndFrom(s, i, 0);
  }

  lemma {:induction false} LineEndFrom(s: Bytes, i: nat, j: nat)
    requires i + j <= |s|
    ensures LineEnd(s, i + j) == i + LineEnd(s[i..], j)
    decreases |s| - j
  {
    if i + j < |s| && s[i + j] != LF {
      LineEndFrom(s, i, j + 1);
    }
  }
}
