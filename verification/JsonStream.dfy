/** The incremental reader of a JSON object as a function of the pieces of text its reads
    deliver, in absolute positions, and its relation to a parse of the whole text. */
module JsonStream {
  import opened Text
  import opened JsonScanner

  type Item = (Str, JValue)

  /** The pairs yielded, and whether the reader ended without an exception. */
  datatype Outcome = Outcome(items: seq<Item>, ok: bool)

  const FAILED := Outcome([], false)

  function Cons(item: Item, rest: Outcome): Outcome {
    Outcome([item] + rest.items, rest.ok)
  }

  function Prepend(items: seq<Item>, rest: Outcome): Outcome {
    Outcome(items + rest.items, rest.ok)
  }

  lemma PrependCons(items: seq<Item>, item: Item, rest: Outcome)
    ensures Prepend(items, Cons(item, rest)) == Prepend(items + [item], rest)
  {
    assert items + ([item] + rest.items) == items + [item] + rest.items;
  }

  lemma PrependNone(items: seq<Item>, ok: bool)
    ensures Prepend(items, Outcome([], ok)) == Outcome(items, ok)
  {
  }

  // ----- the parse of the whole text

  function SkipSpace(s: Str, i: nat): (r: nat)
    requires i <= |s|
    ensures i <= r <= |s|
    ensures r < |s| ==> !IsSpace(s[r])
    decreases |s| - i
  {
    if i < |s| && IsSpace(s[i]) then SkipSpace(s, i + 1) else i
  }

  /** A key and its colon; the position is after the colon. */
  function ParseKey(t: Str, i: nat): (r: Body)
    requires i <= |t|
    ensures r.Body? ==> i < r.end <= |t|
  {
    match ScanValue(t, SkipSpace(t, i))
    case Fail => BadBody
    case Got(k, e) =>
      if k.JString? && At(t, SkipSpace(t, e), COLON) then Body(k.s, SkipSpace(t, e) + 1) else BadBody
  }

  /** The pairs of an object, from before a key to the end of the text. */
  function ParseItems(t: Str, i: nat): (r: Outcome)
    requires i <= |t|
    decreases |t| - i, 2
  {
    match ParseKey(t, i)
    case BadBody => FAILED
    case Body(key, j) => ParsePair(t, key, j)
  }

  /** The pair whose colon is before i, and what follows it. */
  function ParsePair(t: Str, key: Str, i: nat): (r: Outcome)
    requires i <= |t|
    decreases |t| - i, 1
  {
    match ScanValue(t, SkipSpace(t, i))
    case Fail => FAILED
    case Got(v, e) => Cons((key, v), ParseMarker(t, e))
  }

  /** After a value: a comma and more pairs, or the closing brace and only white space. */
  function ParseMarker(t: Str, i: nat): (r: Outcome)
    requires i <= |t|
    decreases |t| - i, 3
  {
    var m := SkipSpace(t, i);
    if At(t, m, COMMA) then ParseItems(t, m + 1)
    else if At(t, m, CLOSE_BRACE) then Outcome([], SkipSpace(t, m + 1) == |t|)
    else FAILED
  }

  /** What follows the opening brace. */
  function ParseBody(t: Str, i: nat): Outcome
    requires i <= |t|
  {
    var j := SkipSpace(t, i);
    if At(t, j, CLOSE_BRACE) then Outcome([], SkipSpace(t, j + 1) == |t|) else ParseItems(t, j)
  }

  /** The whole text: an object between white space, in the sense of `str.isspace`. */
  function Parse(t: Str): Outcome {
    var i := SkipSpace(t, 0);
    if At(t, i, OPEN_BRACE) then ParseBody(t, i + 1) else FAILED
  }

  // ----- the reader over a stream that arrives in pieces

  /** What the reads deliver: decoded pieces (some may be empty), then the end of the stream,
      or a fault (a decoding error, or more bytes than allowed). */
  datatype Stream = Stream(pieces: seq<Str>, fault: bool) {
    function Text(): Str {
      Concat(pieces)
    }

    /** The text visible after n reads. */
    function Visible(n: nat): Str
      requires n <= |pieces|
    {
      Concat(pieces[..n])
    }
  }

  /** The reader: n pieces read, end of stream seen, absolute position. */
  datatype Cursor = Cursor(n: nat, eof: bool, p: nat)

  predicate Ok(f: Stream, c: Cursor) {
    c.n <= |f.pieces| && c.p <= |f.Visible(c.n)| && (c.eof ==> c.n == |f.pieces| && !f.fault)
  }

  function Rank(f: Stream, c: Cursor): nat
    requires Ok(f, c)
  {
    |f.pieces| - c.n + (if c.eof then 0 else 1)
  }

  lemma VisibleGrows(f: Stream, m: nat, n: nat)
    requires m <= n <= |f.pieces|
    ensures f.Visible(m) <= f.Visible(n) <= f.Text()
  {
    assert f.pieces[..n] == f.pieces[..m] + f.pieces[m..n];
    ConcatAppend(f.pieces[..m], f.pieces[m..n]);
    assert f.pieces == f.pieces[..n] + f.pieces[n..];
    ConcatAppend(f.pieces[..n], f.pieces[n..]);
  }

  /** `_fill`: one more read; None is the fault. */
  function Fill(f: Stream, c: Cursor): (r: Option<Cursor>)
    requires Ok(f, c)
    ensures r.Some? ==> Ok(f, r.value) && r.value.p == c.p && r.value.n >= c.n
    ensures r.Some? && !c.eof ==> Rank(f, r.value) < Rank(f, c)
    ensures r.None? ==> f.fault
  {
    if c.eof then Some(c)
    else if c.n < |f.pieces| then
      VisibleGrows(f, c.n, c.n + 1);
      Some(c.(n := c.n + 1))
    else if f.fault then None
    else Some(c.(eof := true))
  }

  /** `_skip_whitespace`. */
  function Skip(f: Stream, c: Cursor): (r: Option<Cursor>)
    requires Ok(f, c)
    ensures r.Some? ==> Ok(f, r.value) && r.value.p >= c.p && Rank(f, r.value) <= Rank(f, c)
    ensures r.None? ==> f.fault
    decreases Rank(f, c), |f.Visible(c.n)| - c.p
  {
    var v := f.Visible(c.n);
    if c.p < |v| then if IsSpace(v[c.p]) then Skip(f, c.(p := c.p + 1)) else Some(c)
    else if c.eof then Some(c)
    else
      match Fill(f, c)
      case None => None
      case Some(d) => Skip(f, d)
  }

  /** `_peek`: read until a character is visible or the stream has ended. */
  function Peek(f: Stream, c: Cursor): (r: Option<Cursor>)
    requires Ok(f, c)
    ensures r.Some? ==> Ok(f, r.value) && r.value.p == c.p && Rank(f, r.value) <= Rank(f, c)
    ensures r.None? ==> f.fault
    decreases Rank(f, c)
  {
    if c.p < |f.Visible(c.n)| || c.eof then Some(c)
    else
      match Fill(f, c)
      case None => None
      case Some(d) => Peek(f, d)
  }

  datatype Value = NoValue | Value(v: JValue, c: Cursor)

  /** `_parse_value`: retry on a longer buffer until a value ends inside it. */
  function ReadValue(f: Stream, c: Cursor): (r: Value)
    requires Ok(f, c)
    ensures r.Value? ==> Ok(f, r.c) && r.c.p > c.p && Rank(f, r.c) <= Rank(f, c)
    decreases Rank(f, c)
  {
    var v := f.Visible(c.n);
    match ScanValue(v, c.p)
    case Fail =>
      if c.eof then NoValue
      else
        (match Fill(f, c)
         case None => NoValue
         case Some(d) => ReadValue(f, d))
    case Got(x, e) =>
      if e == |v| && !c.eof then
        match Fill(f, c)
        case None => NoValue
        case Some(d) => ReadValue(f, d)
      else Value(x, c.(p := e))
  }

  /** `_skip_whitespace` and then `_peek`. */
  function Look(f: Stream, c: Cursor): (r: Option<Cursor>)
    requires Ok(f, c)
    ensures r.Some? ==> Ok(f, r.value) && r.value.p >= c.p && Rank(f, r.value) <= Rank(f, c)
  {
    match Skip(f, c)
    case None => None
    case Some(d) => Peek(f, d)
  }

  /** `_skip_whitespace` and then `_consume`. */
  function Expect(f: Stream, c: Cursor, expected: int): (r: Option<Cursor>)
    requires Ok(f, c)
    ensures r.Some? ==> Ok(f, r.value) && r.value.p > c.p && Rank(f, r.value) <= Rank(f, c)
  {
    match Look(f, c)
    case None => None
    case Some(d) => if At(f.Visible(d.n), d.p, expected) then Some(d.(p := d.p + 1)) else None
  }

  /** `_finish`: only white space may follow. */
  function Finish(f: Stream, c: Cursor): Outcome
    requires Ok(f, c)
  {
    match Look(f, c)
    case None => FAILED
    case Some(d) => Outcome([], d.p >= |f.Visible(d.n)|)
  }

  datatype Key = NoKey | Key(key: Str, c: Cursor)

  /** A key and its colon. */
  function ReadKey(f: Stream, c: Cursor): (r: Key)
    requires Ok(f, c)
    ensures r.Key? ==> Ok(f, r.c) && r.c.p > c.p
  {
    match Skip(f, c)
    case None => NoKey
    case Some(d) =>
      match ReadValue(f, d)
      case NoValue => NoKey
      case Value(k, e) =>
        if !k.JString? then NoKey
        else
          match Expect(f, e, COLON)
          case None => NoKey
          case Some(g) => Key(k.s, g)
  }

  function Left(f: Stream, c: Cursor): nat
    requires Ok(f, c)
  {
    VisibleGrows(f, c.n, |f.pieces|);
    |f.Text()| - c.p
  }

  /** The loop of `items`. */
  function ReadItems(f: Stream, c: Cursor): Outcome
    requires Ok(f, c)
    decreases Left(f, c), 1
  {
    match ReadKey(f, c)
    case NoKey => FAILED
    case Key(key, d) => ReadPair(f, key, d)
  }

  function ReadPair(f: Stream, key: Str, c: Cursor): Outcome
    requires Ok(f, c)
    decreases Left(f, c), 0
  {
    match Skip(f, c)
    case None => FAILED
    case Some(d) =>
      match ReadValue(f, d)
      case NoValue => FAILED
      case Value(v, e) => Cons((key, v), ReadMarker(f, e))
  }

  /** After a value: a comma, the closing brace, or an error. */
  function ReadMarker(f: Stream, c: Cursor): Outcome
    requires Ok(f, c)
    decreases Left(f, c), 2
  {
    match Look(f, c)
    case None => FAILED
    case Some(d) =>
      var v := f.Visible(d.n);
      if At(v, d.p, COMMA) then ReadItems(f, d.(p := d.p + 1))
      else if At(v, d.p, CLOSE_BRACE) then Finish(f, d.(p := d.p + 1))
      else FAILED
  }

  /** `items()` after the opening brace. */
  function ReadBody(f: Stream, c: Cursor): Outcome
    requires Ok(f, c)
  {
    match Look(f, c)
    case None => FAILED
    case Some(d) =>
      if At(f.Visible(d.n), d.p, CLOSE_BRACE) then Finish(f, d.(p := d.p + 1)) else ReadItems(f, d)
  }

  /** `items()` on a stream. */
  function Read(f: Stream): Outcome {
    match Expect(f, Cursor(0, false, 0), OPEN_BRACE)
    case None => FAILED
    case Some(c) => ReadBody(f, c)
  }

  // ----- what the reader's steps mean for the whole text

  lemma {:induction false} SkipText(f: Stream, c: Cursor)
    requires Ok(f, c) && Skip(f, c).Some?
    ensures c.p <= |f.Text()|
    ensures Skip(f, c).value.p == SkipSpace(f.Text(), c.p)
    ensures Skip(f, c).value.p < |f.Visible(Skip(f, c).value.n)| || Skip(f, c).value.eof
    decreases Rank(f, c), |f.Visible(c.n)| - c.p
  {
    VisibleGrows(f, c.n, |f.pieces|);
    var v := f.Visible(c.n);
    if c.p < |v| {
      if IsSpace(v[c.p]) {
        SkipText(f, c.(p := c.p + 1));
      }
    } else if c.eof {
      assert f.pieces[..c.n] == f.pieces;
    } else {
      SkipText(f, Fill(f, c).value);
    }
  }

  /** A character is looked at only when it is visible, or when the stream has ended. */
  lemma LookText(f: Stream, c: Cursor)
    requires Ok(f, c)
    ensures c.p <= |f.Text()|
    ensures Look(f, c).None? ==> f.fault
    ensures Look(f, c).Some? ==>
              var d := Look(f, c).value;
              && d.p == SkipSpace(f.Text(), c.p)
              && (if d.p < |f.Visible(d.n)| then d.p < |f.Text()| && f.Visible(d.n)[d.p] == f.Text()[d.p]
                  else d.p == |f.Text()| && !f.fault)
  {
    VisibleGrows(f, c.n, |f.pieces|);
    if Skip(f, c).Some? {
      SkipText(f, c);
      var d := Skip(f, c).value;
      VisibleGrows(f, d.n, |f.pieces|);
      if d.eof {
        assert f.pieces[..d.n] == f.pieces;
      }
    }
  }

  /** The value read is the value of the whole text, unless a number was cut before its
      fraction or exponent; then the next character is the one that would have extended it. */
  lemma {:induction false} ReadValueText(f: Stream, c: Cursor)
    requires Ok(f, c)
    ensures match ReadValue(f, c)
            case NoValue => f.fault || ScanValue(f.Text(), c.p) == Fail
            case Value(x, d) => ScanValue(f.Text(), c.p) == Got(x, d.p) || Cut(f, c, x, d)
    decreases Rank(f, c)
  {
    var v, t := f.Visible(c.n), f.Text();
    VisibleGrows(f, c.n, |f.pieces|);
    match ScanValue(v, c.p)
    case Fail =>
      if c.eof {
        assert f.pieces[..c.n] == f.pieces;
      } else if Fill(f, c).Some? {
        ReadValueText(f, Fill(f, c).value);
      }
    case Got(x, e) =>
      if e == |v| && !c.eof {
        if Fill(f, c).Some? {
          ReadValueText(f, Fill(f, c).value);
        }
      } else if c.eof {
        assert f.pieces[..c.n] == f.pieces;
      } else {
        ValuePrefix(v, t, c.p);
      }
  }

  /** The reader took x for a number whose text goes on with a fraction or an exponent. */
  predicate Cut(f: Stream, c: Cursor, x: JValue, d: Cursor) {
    && IsNumber(x)
    && ScanValue(f.Text(), c.p).Got? && ScanValue(f.Text(), c.p).v.JFloat?
    && d.p < |f.Text()| && CanExtend(f.Text()[d.p])
  }

  /** After such a cut the next character is neither a comma nor a brace: the reader stops. */
  lemma CutStops(f: Stream, c: Cursor)
    requires Ok(f, c) && c.p < |f.Text()| && CanExtend(f.Text()[c.p])
    ensures ReadMarker(f, c) == FAILED
  {
    LookText(f, c);
    assert SkipSpace(f.Text(), c.p) == c.p;
  }

  /** The pairs r are those of the parse p up to where r ends, except that the last one may
      hold the integer part of a number p has in full. */
  predicate Agrees(r: seq<Item>, p: seq<Item>) {
    || r == []
    || (p != [] && r[0] == p[0] && Agrees(r[1..], p[1..]))
    || (p != [] && |r| == 1 && r[0].0 == p[0].0 && IsNumber(r[0].1) && p[0].1.JFloat?)
  }

  /** No value is a number with a fraction or an exponent. */
  predicate NoFloat(items: seq<Item>) {
    forall i :: 0 <= i < |items| ==> !items[i].1.JFloat?
  }

  /** How a reading r relates to the parse p of the same text. */
  predicate Refines(f: Stream, r: Outcome, p: Outcome) {
    && (r.ok ==> r == p && !f.fault)
    && (!f.fault && NoFloat(p.items) ==> r == p)
    && Agrees(r.items, p.items)
  }

  lemma RefinesCons(f: Stream, item: Item, r: Outcome, p: Outcome)
    requires Refines(f, r, p)
    ensures Refines(f, Cons(item, r), Cons(item, p))
  {
    assert (([item] + p.items)[1..]) == p.items;
    assert (([item] + r.items)[1..]) == r.items;
    if NoFloat(Cons(item, p).items) {
      forall i | 0 <= i < |p.items| ensures !p.items[i].1.JFloat? {
        assert p.items[i] == ([item] + p.items)[i + 1];
      }
    }
  }

  lemma FinishText(f: Stream, c: Cursor)
    requires Ok(f, c)
    ensures c.p <= |f.Text()|
    ensures Refines(f, Finish(f, c), Outcome([], SkipSpace(f.Text(), c.p) == |f.Text()|))
  {
    LookText(f, c);
  }

  lemma StringScan(t: Str, i: nat)
    ensures ScanValue(t, i).Got? ==> (ScanValue(t, i).v.JString? <==> t[i] == QUOTE)
  {
  }

  lemma ExpectText(f: Stream, c: Cursor, x: int)
    requires Ok(f, c)
    ensures c.p <= |f.Text()|
    ensures match Expect(f, c, x)
            case None => f.fault || !At(f.Text(), SkipSpace(f.Text(), c.p), x)
            case Some(d) => At(f.Text(), SkipSpace(f.Text(), c.p), x) && d.p == SkipSpace(f.Text(), c.p) + 1
  {
    LookText(f, c);
  }

  lemma ReadKeyText(f: Stream, c: Cursor)
    requires Ok(f, c)
    ensures c.p <= |f.Text()|
    ensures match ReadKey(f, c)
            case NoKey => f.fault || ParseKey(f.Text(), c.p) == BadBody
            case Key(key, d) => ParseKey(f.Text(), c.p) == Body(key, d.p)
  {
    hide ScanValue, Skip, ReadValue, Look, SkipSpace;
    VisibleGrows(f, c.n, |f.pieces|);
    match Skip(f, c)
    case None =>
    case Some(d) =>
      SkipText(f, c);
      ReadValueText(f, d);
      match ReadValue(f, d)
      case NoValue =>
      case Value(k, e) =>
        assert !k.JString? ==> ParseKey(f.Text(), c.p) == BadBody by {
          StringScan(f.Text(), d.p);
        }
        ExpectText(f, e, COLON);
  }

  lemma {:induction false} ReadItemsText(f: Stream, c: Cursor)
    requires Ok(f, c)
    ensures c.p <= |f.Text()| && Refines(f, ReadItems(f, c), ParseItems(f.Text(), c.p))
    decreases Left(f, c), 1
  {
    ReadKeyText(f, c);
    match ReadKey(f, c)
    case NoKey =>
    case Key(key, d) => ReadPairText(f, key, d);
  }

  lemma {:induction false} ReadPairText(f: Stream, key: Str, c: Cursor)
    requires Ok(f, c)
    ensures c.p <= |f.Text()| && Refines(f, ReadPair(f, key, c), ParsePair(f.Text(), key, c.p))
    decreases Left(f, c), 0
  {
    var t := f.Text();
    VisibleGrows(f, c.n, |f.pieces|);
    if Skip(f, c).Some? {
      var d := Skip(f, c).value;
      SkipText(f, c);
      ReadValueText(f, d);
      if ReadValue(f, d).Value? {
        var Value(v, e) := ReadValue(f, d);
        if ScanValue(t, d.p) == Got(v, e.p) {
          ReadMarkerText(f, e);
          RefinesCons(f, (key, v), ReadMarker(f, e), ParseMarker(t, e.p));
        } else {
          CutStops(f, e);
          assert ParsePair(t, key, c.p).items[0].1.JFloat?;
        }
      }
    }
  }

  lemma {:induction false} ReadMarkerText(f: Stream, c: Cursor)
    requires Ok(f, c)
    ensures c.p <= |f.Text()| && Refines(f, ReadMarker(f, c), ParseMarker(f.Text(), c.p))
    decreases Left(f, c), 2
  {
    hide Skip, Look, ReadValue, ScanValue, SkipSpace;
    var t := f.Text();
    LookText(f, c);
    match Look(f, c)
    case None =>
      assert ReadMarker(f, c) == FAILED;
    case Some(d) =>
      if At(t, d.p, COMMA) {
        var e := d.(p := d.p + 1);
        assert ReadMarker(f, c) == ReadItems(f, e);
        assert ParseMarker(t, c.p) == ParseItems(t, e.p);
        ReadItemsText(f, e);
      } else if At(t, d.p, CLOSE_BRACE) {
        var e := d.(p := d.p + 1);
        assert ReadMarker(f, c) == Finish(f, e);
        FinishText(f, e);
      } else {
        assert ReadMarker(f, c) == FAILED;
        assert ParseMarker(t, c.p) == FAILED;
      }
  }

  lemma ReadBodyText(f: Stream, c: Cursor)
    requires Ok(f, c)
    ensures c.p <= |f.Text()| && Refines(f, ReadBody(f, c), ParseBody(f.Text(), c.p))
  {
    hide Skip, Look, ReadItems, ParseItems, SkipSpace;
    LookText(f, c);
    match Look(f, c)
    case None =>
      assert ReadBody(f, c) == FAILED;
    case Some(d) =>
      if At(f.Text(), d.p, CLOSE_BRACE) {
        FinishText(f, d.(p := d.p + 1));
      } else {
        assert ReadBody(f, c) == ReadItems(f, d);
        ReadItemsText(f, d);
      }
  }

  /** MAIN: whatever the pieces, a reading that ends without an exception is the parse of the
      whole text; without fractional or exponent values the two are equal in every case; and
      the pairs yielded before a failure are those of the parse, but possibly for the last. */
  lemma ReadRefinesParse(f: Stream)
    ensures Refines(f, Read(f), Parse(f.Text()))
  {
    hide Skip, Look, ReadItems, ParseItems, SkipSpace;
    var c := Cursor(0, false, 0);
    ExpectText(f, c, OPEN_BRACE);
    match Expect(f, c, OPEN_BRACE)
    case None =>
      assert Read(f) == FAILED;
    case Some(d) =>
      ReadBodyText(f, d);
  }

  // ----- exactly when the pieces cannot be observed

  /** The stream that delivers one character a read. */
  function OneByOne(t: Str): Stream {
    Stream(seq(|t|, i requires 0 <= i < |t| => [t[i]]), false)
  }

  lemma {:induction false} OneByOneVisible(t: Str, n: nat)
    requires n <= |t|
    ensures OneByOne(t).Visible(n) == t[..n]
  {
    var f := OneByOne(t);
    if n > 0 {
      OneByOneVisible(t, n - 1);
      assert f.pieces[..n] == f.pieces[..n - 1] + [[t[n - 1]]];
      ConcatAppend(f.pieces[..n - 1], [[t[n - 1]]]);
      assert Concat([[t[n - 1]]]) == [t[n - 1]] + Concat([]);
    }
  }

  lemma OneByOneText(t: Str)
    ensures OneByOne(t).Text() == t
  {
    OneByOneVisible(t, |t|);
    assert OneByOne(t).pieces[..|t|] == OneByOne(t).pieces;
  }

  /** The reader sees at most one character beyond its position. */
  predicate Tight(c: Cursor) {
    c.n <= c.p + 1
  }

  lemma {:induction false} SkipTight(t: Str, c: Cursor)
    requires Ok(OneByOne(t), c) && Tight(c)
    ensures Skip(OneByOne(t), c).Some? && Tight(Skip(OneByOne(t), c).value)
    ensures Look(OneByOne(t), c) == Skip(OneByOne(t), c)
    decreases Rank(OneByOne(t), c), |OneByOne(t).Visible(c.n)| - c.p
  {
    var f := OneByOne(t);
    OneByOneVisible(t, c.n);
    if c.p < c.n {
      if IsSpace(t[c.p]) {
        SkipTight(t, c.(p := c.p + 1));
      }
    } else if !c.eof {
      SkipTight(t, Fill(f, c).value);
    }
  }

  /** No value of the text before the last visible character was overlooked. */
  predicate NoneMissed(t: Str, n: nat, p: nat)
    requires n <= |t|
  {
    n <= p + 1 || (ScanValue(t[..n - 1], p).Got? ==> ScanValue(t[..n - 1], p).end == n - 1)
  }

  lemma {:induction false} ReadValueTight(t: Str, c: Cursor)
    requires Ok(OneByOne(t), c) && NoneMissed(t, c.n, c.p)
    ensures ReadValue(OneByOne(t), c).Value? ==> Tight(ReadValue(OneByOne(t), c).c)
    decreases Rank(OneByOne(t), c)
  {
    var f := OneByOne(t);
    OneByOneVisible(t, c.n);
    var v := t[..c.n];
    var r := ScanValue(v, c.p);
    if !c.eof && (r.Fail? || r.end == c.n) {
      var d := Fill(f, c).value;
      assert d.n != c.n ==> t[..d.n - 1] == v;
      ReadValueTight(t, d);
      assert ReadValue(f, c) == ReadValue(f, d);
    } else if r.Got? {
      assert ReadValue(f, c) == Value(r.v, c.(p := r.end));
      if c.n > c.p + 1 && r.end <= c.n - 1 {
        var u := t[..c.n - 1];
        assert u <= v;
        ValueShrink(u, v, c.p);
      }
    }
  }

  /** Cut after the dot or exponent mark, a fractional number reads as its integer part. */
  lemma CutNumber(t: Str, i: nat, v: Str)
    requires v <= t && i < |v|
    requires ScanAtom(t, i).Got? && ScanAtom(t, i).v.JFloat?
    requires |v| == IntEnd(t, i).value + 1
    ensures IntEnd(t, i).Some? && |v| - 1 < |t| && CanExtend(t[|v| - 1])
    ensures ScanValue(v, i) == Got(JInt(Integer(t[i..|v| - 1])), |v| - 1)
  {
    var j := IntEnd(t, i).value;
    NumberAtom(t, t, i);
    IntEndShrink(v, t, i);
    assert v[j] == t[j] && CanExtend(t[j]);
    assert v[i..j] == t[i..j];
    NotAWord(v, i);
    assert v[i] == t[i];
  }

  lemma FloatExtends(t: Str, i: nat)
    requires i < |t| && ScanAtom(t, i).Got? && ScanAtom(t, i).v.JFloat? && IntEnd(t, i).Some?
    ensures IntEnd(t, i).value < |t| && CanExtend(t[IntEnd(t, i).value])
  {
    NumberAtom(t, t, i);
  }

  /** No value ends inside a buffer that ends inside the integer part. */
  lemma CutWaits(t: Str, i: nat, v: Str)
    requires v <= t && i <= |v| && i < |t|
    requires ScanAtom(t, i).Got? && ScanAtom(t, i).v.JFloat? && ScanValue(t, i) == ScanAtom(t, i)
    requires IntEnd(t, i).Some? && |v| <= IntEnd(t, i).value
    ensures ScanValue(v, i).Got? ==> ScanValue(v, i).end == |v|
  {
    NumberAtom(t, t, i);
    if ScanValue(v, i).Got? && ScanValue(v, i).end < |v| {
      ValuePrefix(v, t, i);
      assert false;
    }
  }

  /** One character at a time, a fractional or exponent number is always cut. */
  lemma {:induction false} ReadFloatCut(t: Str, c: Cursor)
    requires Ok(OneByOne(t), c) && !c.eof && c.p < |t|
    requires ScanAtom(t, c.p).Got? && ScanAtom(t, c.p).v.JFloat? && ScanValue(t, c.p) == ScanAtom(t, c.p)
    requires IntEnd(t, c.p).Some? && c.n <= IntEnd(t, c.p).value + 1
    ensures var j := IntEnd(t, c.p).value;
            j < |t| && CanExtend(t[j])
            && ReadValue(OneByOne(t), c) == Value(JInt(Integer(t[c.p..j])), Cursor(j + 1, false, j))
    decreases Rank(OneByOne(t), c)
  {
    hide ScanAtom, ScanValue, IntEnd, CanExtend, Integer;
    var f, j := OneByOne(t), IntEnd(t, c.p).value;
    FloatExtends(t, c.p);
    OneByOneVisible(t, c.n);
    var v := t[..c.n];
    if c.n == j + 1 {
      CutNumber(t, c.p, v);
    } else {
      CutWaits(t, c.p, v);
      var d := Fill(f, c).value;
      assert ReadValue(f, c) == ReadValue(f, d);
      ReadFloatCut(t, d);
    }
  }

  lemma FloatIsAtom(t: Str, i: nat)
    requires ScanValue(t, i).Got? && ScanValue(t, i).v.JFloat?
    ensures i < |t| && ScanValue(t, i) == ScanAtom(t, i) && IntEnd(t, i).Some? && i < IntEnd(t, i).value
    ensures !IsSpace(t[i])
  {
    NumberAtom(t, t, i);
  }

  lemma {:induction false} ItemsDiverge(t: Str, c: Cursor)
    requires Ok(OneByOne(t), c) && c.p <= |t| && Tight(c) && !NoFloat(ParseItems(t, c.p).items)
    ensures ReadItems(OneByOne(t), c).items != ParseItems(t, c.p).items
    decreases Left(OneByOne(t), c), 1
  {
    var f := OneByOne(t);
    OneByOneText(t);
    ReadKeyText(f, c);
    SkipTight(t, c);
    match ReadKey(f, c)
    case NoKey =>
    case Key(key, g) =>
      var d := Skip(f, c).value;
      ReadValueTight(t, d);
      var e := ReadValue(f, d).c;
      SkipTight(t, e);
      PairDiverges(t, key, g);
  }

  lemma {:induction false} PairDiverges(t: Str, key: Str, c: Cursor)
    requires Ok(OneByOne(t), c) && c.p <= |t| && Tight(c) && !NoFloat(ParsePair(t, key, c.p).items)
    ensures ReadPair(OneByOne(t), key, c).items != ParsePair(t, key, c.p).items
    decreases Left(OneByOne(t), c), 0
  {
    var f := OneByOne(t);
    OneByOneText(t);
    SkipTight(t, c);
    SkipText(f, c);
    var d := Skip(f, c).value;
    ReadValueText(f, d);
    ReadValueTight(t, d);
    var Got(w, end) := ScanValue(t, d.p);
    if w.JFloat? {
      FloatIsAtom(t, d.p);
      assert !d.eof by {
        OneByOneVisible(t, d.n);
      }
      ReadFloatCut(t, d);
      assert ReadPair(f, key, c).items[0] != (key, w);
    } else {
      var e := ReadValue(f, d).c;
      assert ReadValue(f, d) == Value(w, e) && e.p == end;
      MarkerDiverges(t, e);
      var p, r := ParseMarker(t, end), ReadMarker(f, e);
      assert ([(key, w)] + r.items)[1..] == r.items && ([(key, w)] + p.items)[1..] == p.items;
    }
  }

  lemma {:induction false} MarkerDiverges(t: Str, c: Cursor)
    requires Ok(OneByOne(t), c) && c.p <= |t| && Tight(c) && !NoFloat(ParseMarker(t, c.p).items)
    ensures ReadMarker(OneByOne(t), c).items != ParseMarker(t, c.p).items
    decreases Left(OneByOne(t), c), 2
  {
    var f := OneByOne(t);
    OneByOneText(t);
    LookText(f, c);
    SkipTight(t, c);
    var d := Look(f, c).value;
    assert At(t, d.p, COMMA);
    ItemsDiverge(t, d.(p := d.p + 1));
  }

  lemma ReadDiverges(t: Str)
    requires !NoFloat(Parse(t).items)
    ensures Read(OneByOne(t)).items != Parse(t).items
  {
    hide ParseItems, ReadItems, Skip, Peek, SkipSpace, Finish;
    var f, c := OneByOne(t), Cursor(0, false, 0);
    OneByOneText(t);
    ExpectText(f, c, OPEN_BRACE);
    SkipTight(t, c);
    var d := Expect(f, c, OPEN_BRACE).value;
    LookText(f, d);
    SkipTight(t, d);
    ItemsDiverge(t, Look(f, d).value);
  }

  /** MAIN: the pieces are unobservable for a text exactly when its parse yields no value
      with a fraction or an exponent. */
  lemma ReadIndependentOfPieces(t: Str)
    ensures (forall f: Stream :: !f.fault && f.Text() == t ==> Read(f) == Parse(t)) <==> NoFloat(Parse(t).items)
  {
    if NoFloat(Parse(t).items) {
      forall f: Stream | !f.fault && f.Text() == t ensures Read(f) == Parse(t) {
        ReadRefinesParse(f);
      }
    } else {
      OneByOneText(t);
      ReadDiverges(t);
    }
  }

  // ----- counts: what the index builder makes of the pairs

  const MAX_SQLITE_COUNT: int := 0x7FFF_FFFF_FFFF_FFFF

  /** `_validated_count` accepts the value (booleans are not counts). */
  predicate ValidCount(v: JValue) {
    v.JInt? && 1 <= v.n <= MAX_SQLITE_COUNT
  }

  predicate AllCounts(items: seq<Item>) {
    forall i :: 0 <= i < |items| ==> ValidCount(items[i].1)
  }

  /** The reading ends without an exception and every value is an occurrence count. */
  predicate Usable(r: Outcome) {
    r.ok && AllCounts(r.items)
  }

  /** MAIN: whether a source is usable, and its pairs, never depend on the pieces. */
  lemma UsableIndependentOfPieces(f: Stream)
    ensures Usable(Read(f)) ==> Read(f) == Parse(f.Text())
    ensures Usable(Read(f)) <==> !f.fault && Usable(Parse(f.Text()))
  {
    ReadRefinesParse(f);
    if !f.fault && Usable(Parse(f.Text())) {
      assert NoFloat(Parse(f.Text()).items);
    }
  }
}
