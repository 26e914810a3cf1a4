/** `_StreamingJsonObject`: the buffer that is refilled and compacted, over a stream of bytes
    that arrives in arbitrary reads. Each method is proved against the step of JsonStream it
    implements; a false `ok` stands for the exception the source raises. */
module StreamingReader {
  import opened Text
  import opened JsonScanner
  import JS = JsonStream
  import Utf8

  /** The pieces of text that the remaining reads decode to. `used` bytes were read before,
      and `pending` is the incomplete sequence the decoder holds. */
  function StreamOf(parts: seq<Bytes>, pending: Bytes, used: nat, max: int): JS.Stream
    requires |pending| <= 3
    decreases |parts|
  {
    if parts == [] then JS.Stream([], pending != [])
    else if used + |parts[0]| > max then JS.Stream([], true)
    else
      match Utf8.Decode(pending, parts[0])
      case None => JS.Stream([], true)
      case Some(d) =>
        var rest := StreamOf(parts[1..], d.pending, used + |parts[0]|, max);
        JS.Stream([d.text] + rest.pieces, rest.fault)
  }

  /** The stream is free of faults exactly when the bytes fit and decode, however they are
      cut into reads, and then its text is their decoding. */
  lemma {:induction false} StreamText(parts: seq<Bytes>, pending: Bytes, used: nat, max: int)
    requires |pending| <= 3 && used <= max
    ensures var d := Utf8.Decode(pending, Concat(parts));
            var f := StreamOf(parts, pending, used, max);
            && (!f.fault <==> used + |Concat(parts)| <= max && d.Some? && d.value.pending == [])
            && (!f.fault ==> f.Text() == d.value.text)
    decreases |parts|
  {
    if parts != [] {
      Utf8.DecodeConcat(pending, parts[0], Concat(parts[1..]));
      if used + |parts[0]| <= max && Utf8.Decode(pending, parts[0]).Some? {
        var d := Utf8.Decode(pending, parts[0]).value;
        StreamText(parts[1..], d.pending, used + |parts[0]|, max);
        var rest := StreamOf(parts[1..], d.pending, used + |parts[0]|, max);
        assert ([d.text] + rest.pieces)[1..] == rest.pieces;
      }
    }
  }

  /** What the reader makes of a source that is delivered in these reads. */
  function ReadSource(parts: seq<Bytes>, max: int): JS.Outcome {
    if max < 1 then JS.FAILED else JS.Read(StreamOf(parts, [], 0, max))
  }

  /** The text of a source: its bytes within the limit, decoded. */
  function SourceText(bytes: Bytes, max: int): Option<Str> {
    if max < 1 || |bytes| > max then None
    else
      match Utf8.Decode([], bytes)
      case None => None
      case Some(d) => if d.pending == [] then Some(d.text) else None
  }

  /** MAIN: a source reads without an exception only as the parse of its decoded bytes, and
      when it holds occurrence counts only, exactly then and whatever the reads are. */
  lemma ReadSourceExact(parts: seq<Bytes>, max: int)
    ensures var t, r := SourceText(Concat(parts), max), ReadSource(parts, max);
            && (r.ok ==> t.Some? && r == JS.Parse(t.value))
            && (t.Some? && JS.NoFloat(JS.Parse(t.value).items) ==> r == JS.Parse(t.value))
            && (JS.Usable(r) <==> t.Some? && JS.Usable(JS.Parse(t.value)))
  {
    if max >= 1 {
      StreamText(parts, [], 0, max);
      JS.ReadRefinesParse(StreamOf(parts, [], 0, max));
      JS.UsableIndependentOfPieces(StreamOf(parts, [], 0, max));
    }
  }

  /** Two deliveries of the same bytes are usable together, with the same pairs. */
  lemma SameBytesSameItems(a: seq<Bytes>, b: seq<Bytes>, max: int)
    requires Concat(a) == Concat(b)
    ensures JS.Usable(ReadSource(a, max)) <==> JS.Usable(ReadSource(b, max))
    ensures JS.Usable(ReadSource(a, max)) ==> ReadSource(a, max) == ReadSource(b, max)
  {
    ReadSourceExact(a, max);
    ReadSourceExact(b, max);
  }

  const CHUNK_SIZE: nat := 65536

  class StreamingJsonObject {
    var parts: seq<Bytes>          // what the raw stream still delivers; then empty reads
    const maxBytes: int
    var bytesRead: nat
    var pending: Bytes             // state of the incremental decoder
    var buffer: Str
    var position: nat
    var eof: bool

    ghost const stream: JS.Stream  // the whole stream
    ghost var n: nat               // pieces read so far
    ghost var base: nat            // absolute position of the start of the buffer

    ghost predicate Valid()
      reads this
    {
      && |pending| <= 3 && n <= |stream.pieces| && position <= |buffer|
      && base <= |stream.Visible(n)| && buffer == stream.Visible(n)[base..]
      && (if eof then n == |stream.pieces| && !stream.fault
          else StreamOf(parts, pending, bytesRead, maxBytes) == JS.Stream(stream.pieces[n..], stream.fault))
    }

    ghost function Cursor(): (c: JS.Cursor)
      requires Valid()
      reads this
      ensures JS.Ok(stream, c)
    {
      JS.Cursor(n, eof, base + position)
    }

    constructor (raw: seq<Bytes>, max: int)
      ensures Valid() && maxBytes == max && Cursor() == JS.Cursor(0, false, 0)
      ensures stream == StreamOf(raw, [], 0, max)
    {
      parts, maxBytes := raw, max;
      bytesRead, pending, buffer, position, eof := 0, [], [], 0, false;
      stream, n, base := StreamOf(raw, [], 0, max), 0, 0;
      new;
      assert stream.pieces[..0] == [] && stream.pieces[0..] == stream.pieces;
    }

    method Fill() returns (ok: bool)
      requires Valid()
      modifies this
      ensures match JS.Fill(stream, old(Cursor()))
              case None => !ok
              case Some(c) => ok && Valid() && Cursor() == c
    {
      if eof {
        return true;
      }
      if parts == [] {
        if pending != [] {
          return false;
        }
        eof := true;
        return true;
      }
      var chunk := parts[0];
      parts := parts[1..];
      bytesRead := bytesRead + |chunk|;
      if bytesRead > maxBytes {
        return false;
      }
      match Utf8.Decode(pending, chunk) {
        case None =>
          return false;
        case Some(d) =>
          JS.VisibleGrows(stream, n, n + 1);
          assert stream.pieces[n..][0] == stream.pieces[n] == d.text;
          assert stream.pieces[..n + 1] == stream.pieces[..n] + [d.text];
          ConcatAppend(stream.pieces[..n], [d.text]);
          assert Concat([d.text]) == d.text;
          assert stream.pieces[n..][1..] == stream.pieces[n + 1..];
          buffer, pending := buffer + d.text, d.pending;
          n := n + 1;
          return true;
      }
    }

    method Compact()
      requires Valid()
      modifies this
      ensures Valid() && Cursor() == old(Cursor())
    {
      if position >= CHUNK_SIZE {
        base := base + position;
        buffer, position := buffer[position..], 0;
      }
    }

    /** The inner loop of `_skip_whitespace`: the white space that is visible. */
    method SkipVisible()
      requires Valid()
      modifies this`position
      ensures Valid() && Cursor().p >= old(Cursor()).p
      ensures JS.Skip(stream, Cursor()) == JS.Skip(stream, old(Cursor()))
      ensures position < |buffer| ==> !IsSpace(buffer[position])
    {
      ghost var start := Cursor();
      while position < |buffer| && IsSpace(buffer[position])
        invariant Valid() && Cursor().p >= start.p
        invariant JS.Skip(stream, Cursor()) == JS.Skip(stream, start)
      {
        position := position + 1;
      }
    }

    method SkipWhitespace() returns (ok: bool)
      requires Valid()
      modifies this
      ensures match JS.Skip(stream, old(Cursor()))
              case None => !ok
              case Some(c) => ok && Valid() && Cursor() == c
    {
      hide StreamOf, Utf8.Decode;
      ghost var start := Cursor();
      while true
        invariant Valid() && JS.Skip(stream, Cursor()) == JS.Skip(stream, start)
        decreases JS.Rank(stream, Cursor())
      {
        SkipVisible();
        Compact();
        if position < |buffer| || eof {
          return true;
        }
        var filled := Fill();
        if !filled {
          return false;
        }
      }
    }

    method Peek() returns (ok: bool, c: Option<int>)
      requires Valid()
      modifies this
      ensures match JS.Peek(stream, old(Cursor()))
              case None => !ok
              case Some(d) => ok && Valid() && Cursor() == d && c == Current()
    {
      ghost var start := Cursor();
      while position >= |buffer| && !eof
        invariant Valid() && JS.Peek(stream, Cursor()) == JS.Peek(stream, start)
        decreases JS.Rank(stream, Cursor())
      {
        var filled := Fill();
        if !filled {
          return false, None;
        }
      }
      return true, if position >= |buffer| then None else Some(buffer[position]);
    }

    /** The visible character at the position. */
    ghost function Current(): (c: Option<int>)
      requires Valid()
      reads this
      ensures forall x :: c == Some(x) <==> At(stream.Visible(n), base + position, x)
      ensures c == None <==> base + position >= |stream.Visible(n)|
    {
      if position < |buffer| then Some(buffer[position]) else None
    }

    /** `_parse_value`; None is an exception. */
    method ParseValue() returns (r: Option<JValue>)
      requires Valid()
      modifies this
      ensures match JS.ReadValue(stream, old(Cursor()))
              case NoValue => r == None
              case Value(v, c) => r == Some(v) && Valid() && Cursor() == c
    {
      hide StreamOf, ScanValue;
      ghost var start := Cursor();
      while true
        invariant Valid() && JS.ReadValue(stream, Cursor()) == JS.ReadValue(stream, start)
        decreases JS.Rank(stream, Cursor())
      {
        ghost var v := stream.Visible(n);
        ValueShift(v, base, position);
        var scanned := ScanValue(buffer, position);
        match scanned {
          case Fail =>
            if eof {
              return None;
            }
          case Got(value, end) =>
            if end != |buffer| || eof {
              position := end;
              Compact();
              return Some(value);
            }
        }
        var filled := Fill();
        if !filled {
          return None;
        }
      }
    }

    method Consume(expected: int) returns (ok: bool)
      requires Valid()
      modifies this
      ensures match JS.Peek(stream, old(Cursor()))
              case None => !ok
              case Some(d) =>
                if At(stream.Visible(d.n), d.p, expected)
                then ok && Valid() && Cursor() == d.(p := d.p + 1)
                else !ok
    {
      var peeked, actual := Peek();
      if !peeked || actual != Some(expected) {
        return false;
      }
      position := position + 1;
      return true;
    }

    method Finish() returns (ok: bool)
      requires Valid()
      modifies this
      ensures ok == JS.Finish(stream, old(Cursor())).ok
    {
      var skipped := SkipWhitespace();
      if !skipped {
        return false;
      }
      var peeked, c := Peek();
      return peeked && c == None;
    }

    method SkipAndPeek() returns (ok: bool, c: Option<int>)
      requires Valid()
      modifies this
      ensures match JS.Look(stream, old(Cursor()))
              case None => !ok
              case Some(d) => ok && Valid() && Cursor() == d && c == Current()
    {
      ok := SkipWhitespace();
      if !ok {
        return false, None;
      }
      ok, c := Peek();
    }

    method SkipAndConsume(expected: int) returns (ok: bool)
      requires Valid()
      modifies this
      ensures match JS.Expect(stream, old(Cursor()), expected)
              case None => !ok
              case Some(d) => ok && Valid() && Cursor() == d
    {
      ok := SkipWhitespace();
      if ok {
        ok := Consume(expected);
      }
    }

    /** The key of a pair and its colon; None is an exception. */
    method ParseKey() returns (r: Option<Str>)
      requires Valid()
      modifies this
      ensures match JS.ReadKey(stream, old(Cursor()))
              case NoKey => r == None
              case Key(k, c) => r == Some(k) && Valid() && Cursor() == c
    {
      hide StreamOf, ScanValue, JS.Skip, JS.ReadValue;
      var skipped := SkipWhitespace();
      if !skipped {
        return None;
      }
      var key := ParseValue();
      if key == None || !key.value.JString? {
        return None;
      }
      var colon := SkipAndConsume(COLON);
      return if colon then Some(key.value.s) else None;
    }

    /** The value of a pair; None is an exception. */
    method ParsePairValue() returns (r: Option<JValue>)
      requires Valid()
      modifies this
      ensures match JS.Skip(stream, old(Cursor()))
              case None => r == None
              case Some(d) =>
                match JS.ReadValue(stream, d)
                case NoValue => r == None
                case Value(v, c) => r == Some(v) && Valid() && Cursor() == c
    {
      var skipped := SkipWhitespace();
      if !skipped {
        return None;
      }
      r := ParseValue();
    }

    /** After a value: more pairs follow, or the reading ends with `ok`. */
    method ParseMarker() returns (more: bool, ok: bool)
      requires Valid()
      modifies this
      ensures more ==>
                && Valid() && Cursor().p > old(Cursor()).p
                && JS.ReadMarker(stream, old(Cursor())) == JS.ReadItems(stream, Cursor())
      ensures !more ==> JS.ReadMarker(stream, old(Cursor())) == JS.Outcome([], ok)
    {
      hide StreamOf, JS.ReadItems, JS.Look;
      ghost var c := Cursor();
      var looked, marker := SkipAndPeek();
      if !looked || (marker != Some(COMMA) && marker != Some(CLOSE_BRACE)) {
        return false, false;
      }
      position := position + 1;
      if marker == Some(COMMA) {
        return true, false;
      }
      assert JS.ReadMarker(stream, c) == JS.Finish(stream, Cursor());
      ok := Finish();
      return false, ok;
    }

    /** The loop of `items()`. */
    method Pairs() returns (items: seq<JS.Item>, ok: bool)
      requires Valid()
      modifies this
      ensures JS.Outcome(items, ok) == JS.ReadItems(stream, old(Cursor()))
    {
      hide StreamOf, ScanValue, JS.Skip, JS.ReadValue, JS.ReadKey, JS.Look, JS.ReadMarker;
      items, ok := [], false;
      ghost var whole := JS.ReadItems(stream, Cursor());
      var more := true;
      while more
        invariant more ==> Valid() && whole == JS.Prepend(items, JS.ReadItems(stream, Cursor()))
        invariant !more ==> whole == JS.Outcome(items, ok)
        decreases more, if more then JS.Left(stream, Cursor()) else 0
      {
        var key := ParseKey();
        if key == None {
          JS.PrependNone(items, false);
          return items, false;
        }
        ghost var c := Cursor();
        assert whole == JS.Prepend(items, JS.ReadPair(stream, key.value, c));
        var value := ParsePairValue();
        if value == None {
          JS.PrependNone(items, false);
          return items, false;
        }
        ghost var rest := JS.ReadMarker(stream, Cursor());
        assert JS.ReadPair(stream, key.value, c) == JS.Cons((key.value, value.value), rest);
        JS.PrependCons(items, (key.value, value.value), rest);
        items := items + [(key.value, value.value)];
        more, ok := ParseMarker();
        JS.PrependNone(items, ok);
      }
    }

    /** `items()`, run to its end or to its first exception. */
    method Items() returns (items: seq<JS.Item>, ok: bool)
      requires Valid() && Cursor() == JS.Cursor(0, false, 0)
      modifies this
      ensures JS.Outcome(items, ok) == if maxBytes < 1 then JS.FAILED else JS.Read(stream)
    {
      hide StreamOf, JS.Skip, JS.ReadItems, JS.Look;
      items, ok := [], false;
      if maxBytes < 1 {
        return;
      }
      var brace := SkipAndConsume(OPEN_BRACE);
      if !brace {
        return;
      }
      var peeked, c := SkipAndPeek();
      if !peeked {
        return;
      }
      if c == Some(CLOSE_BRACE) {
        position := position + 1;
        ok := Finish();
      } else {
        items, ok := Pairs();
      }
    }
  }

  /** A source read to its end: the class computes what the theorems are about. */
  method ReadItems(parts: seq<Bytes>, max: int) returns (items: seq<JS.Item>, ok: bool)
    ensures JS.Outcome(items, ok) == ReadSource(parts, max)
  {
    var reader := new StreamingJsonObject(parts, max);
    items, ok := reader.Items();
  }
}
