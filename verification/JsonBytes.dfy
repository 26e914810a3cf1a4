/** `json.loads` of bytes: how it finds out the encoding, and that an object loads the same in
    all of them. */
module JsonBytes {
  import opened Text
  import J = JsonScanner
  import Utf8

  // ----- decoders, with the error handler `surrogatepass`

  predicate High(u: int) {
    0xD800 <= u < 0xDC00
  }

  predicate Low(u: int) {
    0xDC00 <= u < 0xE000
  }

  function Prepend(c: int, rest: Option<Str>): Option<Str> {
    match rest
    case None => None
    case Some(s) => Some([c] + s)
  }

  /** As `Utf8.Feed`, but an encoded surrogate goes through. */
  function FeedPass(pending: Bytes, b: int): (r: Utf8.Step)
    requires |pending| <= 3
    ensures r.More? ==> |r.pending| <= 3
  {
    if pending == [0xED] && 0xA0 <= b <= 0xBF then Utf8.More([0xED, b]) else Utf8.Feed(pending, b)
  }

  function DecodeUtf8(pending: Bytes, bytes: Bytes): Option<Str>
    requires |pending| <= 3
    decreases |bytes|
  {
    if bytes == [] then (if pending == [] then Some([]) else None)
    else
      match FeedPass(pending, bytes[0])
      case Invalid => None
      case More(p) => DecodeUtf8(p, bytes[1..])
      case Emit(c) => Prepend(c, DecodeUtf8([], bytes[1..]))
  }

  datatype Order = Big | Little

  function Unit(o: Order, a: int, b: int): int {
    if o == Big then a * 256 + b else b * 256 + a
  }

  /** A surrogate pair is one character, any other surrogate goes through. */
  function DecodeUtf16(o: Order, bytes: Bytes): Option<Str> {
    if bytes == [] then Some([])
    else if |bytes| < 2 then None
    else
      var u := Unit(o, bytes[0], bytes[1]);
      if High(u) && |bytes| >= 4 && Low(Unit(o, bytes[2], bytes[3])) then
        Prepend(0x10000 + (u - 0xD800) * 0x400 + (Unit(o, bytes[2], bytes[3]) - 0xDC00), DecodeUtf16(o, bytes[4..]))
      else Prepend(u, DecodeUtf16(o, bytes[2..]))
  }

  function Wide(o: Order, a: int, b: int, c: int, d: int): int {
    if o == Big then Unit(o, a, b) * 0x10000 + Unit(o, c, d) else Unit(o, c, d) * 0x10000 + Unit(o, a, b)
  }

  function DecodeUtf32(o: Order, bytes: Bytes): Option<Str> {
    if bytes == [] then Some([])
    else if |bytes| < 4 then None
    else
      var c := Wide(o, bytes[0], bytes[1], bytes[2], bytes[3]);
      if 0 <= c < 0x110000 then Prepend(c, DecodeUtf32(o, bytes[4..])) else None
  }

  // ----- `json.loads`

  datatype Codec = Eight | Sixteen(o: Order) | ThirtyTwo(o: Order)

  /** What a file starts with and how it goes on. */
  datatype Form = Form(codec: Codec, marked: bool)

  /** The byte order mark of a codec. */
  function Mark(c: Codec): Bytes {
    match c
    case Eight => [0xEF, 0xBB, 0xBF]
    case Sixteen(o) => if o == Big then [0xFE, 0xFF] else [0xFF, 0xFE]
    case ThirtyTwo(o) => if o == Big then [0, 0, 0xFE, 0xFF] else [0xFF, 0xFE, 0, 0]
  }

  /** `json.detect_encoding`. */
  function Detect(b: Bytes): (f: Form)
    ensures f.marked ==> Mark(f.codec) <= b
  {
    if Mark(ThirtyTwo(Big)) <= b then Form(ThirtyTwo(Big), true)
    else if Mark(ThirtyTwo(Little)) <= b then Form(ThirtyTwo(Little), true)
    else if Mark(Sixteen(Big)) <= b then Form(Sixteen(Big), true)
    else if Mark(Sixteen(Little)) <= b then Form(Sixteen(Little), true)
    else if Mark(Eight) <= b then Form(Eight, true)
    else Form(Guess(b), false)
  }

  /** Without a mark, by where the null bytes are. */
  function Guess(b: Bytes): Codec {
    if |b| >= 4 then
      if b[0] == 0 then (if b[1] != 0 then Sixteen(Big) else ThirtyTwo(Big))
      else if b[1] == 0 then (if b[2] != 0 || b[3] != 0 then Sixteen(Little) else ThirtyTwo(Little))
      else Eight
    else if |b| == 2 then
      if b[0] == 0 then Sixteen(Big)
      else if b[1] == 0 then Sixteen(Little)
      else Eight
    else Eight
  }

  function DecodeAs(c: Codec, bytes: Bytes): Option<Str> {
    match c
    case Eight => DecodeUtf8([], bytes)
    case Sixteen(o) => DecodeUtf16(o, bytes)
    case ThirtyTwo(o) => DecodeUtf32(o, bytes)
  }

  /** `json.loads` of bytes that hold an object, before duplicate keys collapse; None stands for
      both of its errors and for another root. */
  function LoadsBytes(raw: Bytes): Option<seq<(Str, J.JValue)>> {
    var f := Detect(raw);
    match DecodeAs(f.codec, if f.marked then raw[|Mark(f.codec)|..] else raw)
    case None => None
    case Some(t) => J.LoadsObject(t)
  }

  // ----- encoders

  function EncodeUnit(o: Order, u: int): Bytes {
    if o == Big then [u / 256, u % 256] else [u % 256, u / 256]
  }

  function EncodeUtf16(o: Order, s: Str): Bytes {
    if s == [] then []
    else
      (if s[0] < 0x10000 then EncodeUnit(o, s[0])
       else EncodeUnit(o, 0xD800 + (s[0] - 0x10000) / 0x400) + EncodeUnit(o, 0xDC00 + (s[0] - 0x10000) % 0x400))
      + EncodeUtf16(o, s[1..])
  }

  function EncodeWide(o: Order, c: int): Bytes {
    if o == Big then EncodeUnit(o, c / 0x10000) + EncodeUnit(o, c % 0x10000)
    else EncodeUnit(o, c % 0x10000) + EncodeUnit(o, c / 0x10000)
  }

  function EncodeUtf32(o: Order, s: Str): Bytes {
    if s == [] then [] else EncodeWide(o, s[0]) + EncodeUtf32(o, s[1..])
  }

  function EncodeAs(c: Codec, s: Str): Bytes
    requires Utf8.Encodable(s)
  {
    match c
    case Eight => Utf8.Encode(s)
    case Sixteen(o) => EncodeUtf16(o, s)
    case ThirtyTwo(o) => EncodeUtf32(o, s)
  }

  /** What strict UTF-8 decodes is decoded the same with surrogates passed. */
  lemma {:induction false} PassIsStrict(pending: Bytes, bytes: Bytes)
    requires |pending| <= 3
    requires Utf8.Decode(pending, bytes).Some? && Utf8.Decode(pending, bytes).value.pending == []
    ensures DecodeUtf8(pending, bytes) == Some(Utf8.Decode(pending, bytes).value.text)
    decreases |bytes|
  {
    if bytes != [] {
      match Utf8.Feed(pending, bytes[0])
      case More(p) => PassIsStrict(p, bytes[1..]);
      case Emit(c) => PassIsStrict([], bytes[1..]);
    }
  }

  lemma UnitOf(o: Order, u: int)
    requires 0 <= u < 0x10000
    ensures |EncodeUnit(o, u)| == 2 && Unit(o, EncodeUnit(o, u)[0], EncodeUnit(o, u)[1]) == u
  {
  }

  lemma {:induction false} DecodeEncode16(o: Order, s: Str)
    requires Utf8.Encodable(s)
    ensures DecodeUtf16(o, EncodeUtf16(o, s)) == Some(s)
  {
    if s != [] {
      var c, e, rest := s[0], EncodeUtf16(o, s), EncodeUtf16(o, s[1..]);
      assert Utf8.Scalar(c);
      DecodeEncode16(o, s[1..]);
      if c < 0x10000 {
        UnitOf(o, c);
        assert e[2..] == rest;
      } else {
        UnitOf(o, 0xD800 + (c - 0x10000) / 0x400);
        UnitOf(o, 0xDC00 + (c - 0x10000) % 0x400);
        assert e[4..] == rest;
      }
      assert [c] + s[1..] == s;
    }
  }

  lemma WideOf(o: Order, c: int)
    requires 0 <= c < 0x110000
    ensures var e := EncodeWide(o, c); |e| == 4 && Wide(o, e[0], e[1], e[2], e[3]) == c
  {
    UnitOf(o, c / 0x10000);
    UnitOf(o, c % 0x10000);
  }

  lemma {:induction false} DecodeEncode32(o: Order, s: Str)
    requires Utf8.Encodable(s)
    ensures DecodeUtf32(o, EncodeUtf32(o, s)) == Some(s)
  {
    hide Wide, EncodeWide;
    if s != [] {
      assert Utf8.Scalar(s[0]);
      WideOf(o, s[0]);
      DecodeEncode32(o, s[1..]);
      assert EncodeUtf32(o, s)[4..] == EncodeUtf32(o, s[1..]);
      assert [s[0]] + s[1..] == s;
    }
  }

  /** Each decoder inverts its encoder, on every text without surrogates. */
  lemma DecodeEncodeAs(c: Codec, s: Str)
    requires Utf8.Encodable(s)
    ensures DecodeAs(c, EncodeAs(c, s)) == Some(s)
  {
    match c
    case Eight =>
      Utf8.DecodeEncode(s);
      PassIsStrict([], Utf8.Encode(s));
    case Sixteen(o) => DecodeEncode16(o, s);
    case ThirtyTwo(o) => DecodeEncode32(o, s);
  }

  // ----- and decode nothing else

  predicate CodePoints(s: Str) {
    forall i :: 0 <= i < |s| ==> 0 <= s[i] < 0x110000
  }

  predicate Octets(b: Bytes) {
    forall i :: 0 <= i < |b| ==> 0 <= b[i] < 0x100
  }

  /** UTF-8 that also encodes surrogates. */
  function EncodeCharPass(c: int): (r: Bytes)
    requires 0 <= c < 0x110000
  {
    if Utf8.Scalar(c) then Utf8.EncodeChar(c) else [0xED, 0x80 + c / 64 % 64, 0x80 + c % 64]
  }

  function EncodePass(s: Str): Bytes
    requires CodePoints(s)
  {
    if s == [] then [] else EncodeCharPass(s[0]) + EncodePass(s[1..])
  }

  /** No two surrogates that make a pair. */
  predicate NoPairs(s: Str) {
    forall i :: 0 <= i < |s| - 1 ==> !(High(s[i]) && Low(s[i + 1]))
  }

  /** The bytes of a text that may hold lone surrogates. */
  function EncodeAnyAs(c: Codec, s: Str): Bytes
    requires CodePoints(s)
  {
    match c
    case Eight => EncodePass(s)
    case Sixteen(o) => EncodeUtf16(o, s)
    case ThirtyTwo(o) => EncodeUtf32(o, s)
  }

  predicate HeldPass(p: Bytes) {
    Utf8.Held(p) || (|p| == 2 && p[0] == 0xED && 0xA0 <= p[1] <= 0xBF)
  }

  lemma SurrogateBytes(q: int, b: int)
    requires 0xA0 <= q <= 0xBF && 0x80 <= b <= 0xBF
    ensures var c := 0xD000 + (q - 0x80) * 64 + (b - 0x80); 0xD800 <= c < 0xE000 && EncodeCharPass(c) == [0xED, q, b]
  {
    Utf8.Digits64(0x340 + (q - 0x80), b - 0x80, 0xD000 + (q - 0x80) * 64 + (b - 0x80));
  }

  lemma FeedPassIsEncode(p: Bytes, b: int)
    requires HeldPass(p)
    ensures |p| <= 3
    ensures FeedPass(p, b).More? ==> FeedPass(p, b).pending == p + [b] && HeldPass(p + [b])
    ensures FeedPass(p, b).Emit? ==>
              var c := FeedPass(p, b).c; 0 <= c < 0x110000 && EncodeCharPass(c) == p + [b]
  {
    hide EncodeCharPass, Utf8.EncodeChar;
    if Utf8.Held(p) {
      Utf8.FeedIsEncode(p, b);
      if FeedPass(p, b).Emit? {
        ScalarPass(FeedPass(p, b).c);
      }
    } else if FeedPass(p, b).Emit? {
      SurrogateBytes(p[1], b);
    }
  }

  lemma ScalarPass(c: int)
    requires Utf8.Scalar(c)
    ensures EncodeCharPass(c) == Utf8.EncodeChar(c)
  {
  }

  lemma {:induction false} Sound8(p: Bytes, bytes: Bytes)
    requires HeldPass(p) && DecodeUtf8(p, bytes).Some?
    ensures var t := DecodeUtf8(p, bytes).value; CodePoints(t) && EncodePass(t) == p + bytes
    decreases |bytes|
  {
    hide FeedPass, EncodeCharPass;
    if bytes != [] {
      FeedPassIsEncode(p, bytes[0]);
      assert p + bytes == p + [bytes[0]] + bytes[1..];
      match FeedPass(p, bytes[0])
      case More(q) => Sound8(q, bytes[1..]);
      case Emit(c) =>
        Sound8([], bytes[1..]);
        var rest := DecodeUtf8([], bytes[1..]).value;
        assert ([c] + rest)[1..] == rest;
        assert [] + bytes[1..] == bytes[1..];
    }
  }

  lemma PassChar(c: int, rest: Bytes)
    requires 0 <= c < 0x110000 && DecodeUtf8([], rest).Some?
    ensures DecodeUtf8([], EncodeCharPass(c) + rest) == Prepend(c, DecodeUtf8([], rest))
  {
    var e := EncodeCharPass(c);
    var b := e + rest;
    if Utf8.Scalar(c) {
      Utf8.DecodeEncode([c]);
      assert Utf8.Encode([c][1..]) == [] && Utf8.Encode([c]) == e;
      PassConcat([], e, rest);
    } else {
      assert c / 64 % 64 == c / 64 - 0x340;
      assert b[1..][0] == e[1] && b[1..][1..][0] == e[2] && b[1..][1..][1..] == rest;
      assert FeedPass([], 0xED) == Utf8.More([0xED]) && FeedPass([0xED], e[1]) == Utf8.More([0xED, e[1]]);
      assert FeedPass([0xED, e[1]], e[2]) == Utf8.Emit(c);
      assert DecodeUtf8([], b) == DecodeUtf8([0xED], b[1..]) == DecodeUtf8([0xED, e[1]], b[1..][1..]);
    }
  }

  /** What strict UTF-8 decodes in front of anything is decoded the same. */
  lemma {:induction false} PassConcat(p: Bytes, a: Bytes, rest: Bytes)
    requires |p| <= 3 && DecodeUtf8([], rest).Some?
    requires Utf8.Decode(p, a).Some? && Utf8.Decode(p, a).value.pending == []
    ensures DecodeUtf8(p, a + rest) == Some(Utf8.Decode(p, a).value.text + DecodeUtf8([], rest).value)
    decreases |a|
  {
    if a == [] {
      assert a + rest == rest && [] + DecodeUtf8([], rest).value == DecodeUtf8([], rest).value;
    } else {
      assert (a + rest)[1..] == a[1..] + rest;
      match Utf8.Feed(p, a[0])
      case More(q) => PassConcat(q, a[1..], rest);
      case Emit(c) =>
        PassConcat([], a[1..], rest);
        var d := Utf8.Decode([], a[1..]).value.text;
        assert [c] + d + DecodeUtf8([], rest).value == [c] + (d + DecodeUtf8([], rest).value);
    }
  }

  lemma {:induction false} Complete8(s: Str)
    requires CodePoints(s)
    ensures DecodeUtf8([], EncodePass(s)) == Some(s)
  {
    hide EncodeCharPass;
    if s != [] {
      Complete8(s[1..]);
      PassChar(s[0], EncodePass(s[1..]));
      assert [s[0]] + s[1..] == s;
    }
  }

  lemma UnitBytes(o: Order, a: int, b: int)
    requires 0 <= a < 0x100 && 0 <= b < 0x100
    ensures 0 <= Unit(o, a, b) < 0x10000 && EncodeUnit(o, Unit(o, a, b)) == [a, b]
  {
  }

  /** What was decoded is the text of these bytes, and starts with a low surrogate only if they do. */
  predicate Decoded16(o: Order, bytes: Bytes, t: Str) {
    && CodePoints(t) && NoPairs(t) && EncodeUtf16(o, t) == bytes
    && (t != [] && Low(t[0]) ==> |bytes| >= 2 && Low(Unit(o, bytes[0], bytes[1])))
  }

  lemma PairSound(o: Order, bytes: Bytes, rest: Str)
    requires |bytes| >= 4 && Octets(bytes) && Decoded16(o, bytes[4..], rest)
    requires High(Unit(o, bytes[0], bytes[1])) && Low(Unit(o, bytes[2], bytes[3]))
    ensures var u, lo := Unit(o, bytes[0], bytes[1]), Unit(o, bytes[2], bytes[3]);
            Decoded16(o, bytes, [0x10000 + (u - 0xD800) * 0x400 + (lo - 0xDC00)] + rest)
  {
    hide Unit, EncodeUnit;
    var u, lo := Unit(o, bytes[0], bytes[1]), Unit(o, bytes[2], bytes[3]);
    UnitBytes(o, bytes[0], bytes[1]);
    UnitBytes(o, bytes[2], bytes[3]);
    var c := 0x10000 + (u - 0xD800) * 0x400 + (lo - 0xDC00);
    assert (c - 0x10000) / 0x400 == u - 0xD800 && (c - 0x10000) % 0x400 == lo - 0xDC00;
    assert ([c] + rest)[1..] == rest;
    assert bytes == [bytes[0], bytes[1]] + [bytes[2], bytes[3]] + bytes[4..];
  }

  lemma SingleSound(o: Order, bytes: Bytes, rest: Str)
    requires |bytes| >= 2 && Octets(bytes) && Decoded16(o, bytes[2..], rest)
    requires var u := Unit(o, bytes[0], bytes[1]);
             !(High(u) && |bytes| >= 4 && Low(Unit(o, bytes[2], bytes[3])))
    ensures Decoded16(o, bytes, [Unit(o, bytes[0], bytes[1])] + rest)
  {
    hide Unit, EncodeUnit;
    var u := Unit(o, bytes[0], bytes[1]);
    UnitBytes(o, bytes[0], bytes[1]);
    assert ([u] + rest)[1..] == rest;
    assert bytes == [bytes[0], bytes[1]] + bytes[2..];
    if |bytes| >= 4 {
      assert bytes[2..][0] == bytes[2] && bytes[2..][1] == bytes[3];
    }
  }

  lemma {:induction false} Sound16(o: Order, bytes: Bytes)
    requires Octets(bytes) && DecodeUtf16(o, bytes).Some?
    ensures Decoded16(o, bytes, DecodeUtf16(o, bytes).value)
    decreases |bytes|
  {
    if bytes != [] {
      hide Unit, Decoded16;
      if High(Unit(o, bytes[0], bytes[1])) && |bytes| >= 4 && Low(Unit(o, bytes[2], bytes[3])) {
        Sound16(o, bytes[4..]);
        PairSound(o, bytes, DecodeUtf16(o, bytes[4..]).value);
      } else {
        Sound16(o, bytes[2..]);
        SingleSound(o, bytes, DecodeUtf16(o, bytes[2..]).value);
      }
    }
  }

  lemma {:induction false} Complete16(o: Order, s: Str)
    requires CodePoints(s) && NoPairs(s)
    ensures DecodeUtf16(o, EncodeUtf16(o, s)) == Some(s)
  {
    if s != [] {
      Complete16(o, s[1..]);
      OneChar16(o, s);
      assert [s[0]] + s[1..] == s;
    }
  }

  lemma OneChar16(o: Order, s: Str)
    requires s != [] && CodePoints(s) && NoPairs(s)
    ensures DecodeUtf16(o, EncodeUtf16(o, s)) == Prepend(s[0], DecodeUtf16(o, EncodeUtf16(o, s[1..])))
  {
    hide Unit, EncodeUnit;
    var c, e, rest := s[0], EncodeUtf16(o, s), EncodeUtf16(o, s[1..]);
    if c < 0x10000 {
      UnitOf(o, c);
      assert e == EncodeUnit(o, c) + rest && e[2..] == rest;
      if |s| > 1 {
        NextUnit(o, s[1..]);
        assert s[1..][0] == s[1];
        assert e[2] == rest[0] && e[3] == rest[1];
        assert High(s[0]) ==> !Low(s[1]);
      }
    } else {
      var hi, lo := 0xD800 + (c - 0x10000) / 0x400, 0xDC00 + (c - 0x10000) % 0x400;
      UnitOf(o, hi);
      UnitOf(o, lo);
      assert e == EncodeUnit(o, hi) + EncodeUnit(o, lo) + rest && e[4..] == rest;
    }
  }

  lemma NextUnit(o: Order, s: Str)
    requires s != [] && CodePoints(s)
    ensures var e := EncodeUtf16(o, s); |e| >= 2 && (Low(Unit(o, e[0], e[1])) <==> Low(s[0]))
  {
    hide Unit, EncodeUnit;
    var c := s[0];
    if c < 0x10000 {
      UnitOf(o, c);
    } else {
      UnitOf(o, 0xD800 + (c - 0x10000) / 0x400);
      UnitOf(o, 0xDC00 + (c - 0x10000) % 0x400);
    }
  }

  lemma WideBytes(o: Order, a: int, b: int, c: int, d: int)
    requires 0 <= a < 0x100 && 0 <= b < 0x100 && 0 <= c < 0x100 && 0 <= d < 0x100
    ensures EncodeWide(o, Wide(o, a, b, c, d)) == [a, b, c, d]
  {
    hide Unit, EncodeUnit;
    UnitBytes(o, a, b);
    UnitBytes(o, c, d);
    var x, y := Unit(o, a, b), Unit(o, c, d);
    assert (x * 0x10000 + y) / 0x10000 == x && (x * 0x10000 + y) % 0x10000 == y;
    assert (y * 0x10000 + x) / 0x10000 == y && (y * 0x10000 + x) % 0x10000 == x;
  }

  lemma {:induction false} Sound32(o: Order, bytes: Bytes)
    requires Octets(bytes) && DecodeUtf32(o, bytes).Some?
    ensures var t := DecodeUtf32(o, bytes).value; CodePoints(t) && EncodeUtf32(o, t) == bytes
    decreases |bytes|
  {
    hide Wide, EncodeWide;
    if bytes != [] {
      WideBytes(o, bytes[0], bytes[1], bytes[2], bytes[3]);
      Sound32(o, bytes[4..]);
      var c, rest := Wide(o, bytes[0], bytes[1], bytes[2], bytes[3]), DecodeUtf32(o, bytes[4..]).value;
      assert ([c] + rest)[1..] == rest;
      assert bytes == [bytes[0], bytes[1], bytes[2], bytes[3]] + bytes[4..];
    }
  }

  lemma {:induction false} Complete32(o: Order, s: Str)
    requires CodePoints(s)
    ensures DecodeUtf32(o, EncodeUtf32(o, s)) == Some(s)
  {
    hide Wide, EncodeWide;
    if s != [] {
      WideOf(o, s[0]);
      Complete32(o, s[1..]);
      assert EncodeUtf32(o, s)[4..] == EncodeUtf32(o, s[1..]);
      assert [s[0]] + s[1..] == s;
    }
  }

  /** MAIN: bytes decode to a text if and only if they are its encoding; lone surrogates go through,
      and in UTF-16 no two of them make a pair. */
  lemma DecodesExactly(c: Codec, bytes: Bytes, t: Str)
    requires Octets(bytes)
    ensures DecodeAs(c, bytes) == Some(t) <==>
            CodePoints(t) && (c.Sixteen? ==> NoPairs(t)) && EncodeAnyAs(c, t) == bytes
  {
    hide DecodeUtf8, DecodeUtf16, DecodeUtf32, EncodePass, EncodeUtf16, EncodeUtf32;
    if DecodeAs(c, bytes) == Some(t) {
      match c
      case Eight =>
        Sound8([], bytes);
        assert [] + bytes == bytes;
      case Sixteen(o) => Sound16(o, bytes);
      case ThirtyTwo(o) => Sound32(o, bytes);
    }
    if CodePoints(t) && (c.Sixteen? ==> NoPairs(t)) {
      match c
      case Eight => Complete8(t);
      case Sixteen(o) => Complete16(o, t);
      case ThirtyTwo(o) => Complete32(o, t);
    }
  }

  /** The text of an object starts with two characters of ASCII, none of them null. */
  lemma ObjectStarts(t: Str)
    requires J.LoadsObject(t).Some?
    ensures |t| >= 2 && 0 < t[0] < 0x80 && 0 < t[1] < 0x80
  {
    hide J.ScanValue, J.ScanMembers;
    var i := J.SkipJson(t, 0);
    ObjectOpens(t, i);
    SkipsOne(t, 0);
    SkipsOne(t, 1);
  }

  lemma SkipsOne(t: Str, i: nat)
    requires i <= |t|
    ensures J.SkipJson(t, i) == i || (i < |t| && IsJsonSpace(t[i]) && J.SkipJson(t, i) == J.SkipJson(t, i + 1))
  {
  }

  /** An object opens with a brace, and goes on with white space, a quote or a brace. */
  lemma ObjectOpens(t: Str, i: nat)
    requires i <= |t| && J.ScanValue(t, i).Got? && J.ScanValue(t, i).v.JObject?
    ensures i + 1 < |t| && t[i] == J.OPEN_BRACE
    ensures IsJsonSpace(t[i + 1]) || t[i + 1] == J.QUOTE || t[i + 1] == J.CLOSE_BRACE
  {
    hide J.ScanAtom;
    var j := J.SkipJson(t, i + 1);
    SkipsOne(t, i + 1);
    if !J.At(t, j, J.CLOSE_BRACE) {
      MembersOpen(t, j);
    }
  }

  lemma MembersOpen(t: Str, j: nat)
    requires j <= |t| && J.ScanMembers(t, j).Members?
    ensures J.At(t, j, J.QUOTE)
  {
  }

  lemma FirstBytes(c: Codec, t: Str)
    requires Utf8.Encodable(t) && |t| >= 2 && 0 < t[0] < 0x80 && 0 < t[1] < 0x80
    ensures var e := EncodeAs(c, t);
            match c
            case Eight => |e| >= 2 && e[0] == t[0] && e[1] == t[1]
            case Sixteen(o) => |e| >= 4 && e[..2] == EncodeUnit(o, t[0]) && e[2..4] == EncodeUnit(o, t[1])
            case ThirtyTwo(o) => |e| >= 4 && e[..4] == EncodeWide(o, t[0])
  {
    assert t[1..][0] == t[1];
    if c.Eight? {
      assert Utf8.Encode(t) == Utf8.EncodeChar(t[0]) + Utf8.Encode(t[1..]);
      assert Utf8.EncodeChar(t[0]) == [t[0]] && Utf8.EncodeChar(t[1]) == [t[1]];
    } else if c.ThirtyTwo? {
      assert EncodeUtf32(c.o, t) == EncodeWide(c.o, t[0]) + EncodeUtf32(c.o, t[1..]);
    } else {
      var rest := EncodeUtf16(c.o, t[1..]);
      assert EncodeUtf16(c.o, t) == EncodeUnit(c.o, t[0]) + rest;
      assert rest == EncodeUnit(c.o, t[1]) + EncodeUtf16(c.o, t[1..][1..]);
    }
  }

  /** The encoding of an object's text is recognised, with its mark and without it. */
  lemma DetectsCodec(c: Codec, t: Str)
    requires Utf8.Encodable(t) && |t| >= 2 && 0 < t[0] < 0x80 && 0 < t[1] < 0x80
    ensures Detect(EncodeAs(c, t)) == Form(c, false)
    ensures Detect(Mark(c) + EncodeAs(c, t)) == Form(c, true)
  {
    hide EncodeAs;
    FirstBytes(c, t);
    Recognised(c, EncodeAs(c, t), t[0], t[1]);
  }

  lemma Recognised(c: Codec, e: Bytes, x: int, y: int)
    requires 0 < x < 0x80 && 0 < y < 0x80
    requires match c
             case Eight => |e| >= 2 && e[0] == x && e[1] == y
             case Sixteen(o) => |e| >= 4 && e[..2] == EncodeUnit(o, x) && e[2..4] == EncodeUnit(o, y)
             case ThirtyTwo(o) => |e| >= 4 && e[..4] == EncodeWide(o, x)
    ensures Detect(e) == Form(c, false) && Detect(Mark(c) + e) == Form(c, true)
  {
    assert |e| >= 4 ==> e[0] == e[..2][0] == e[..4][0] && e[1] == e[..2][1] == e[..4][1]
                        && e[2] == e[2..4][0] == e[..4][2] && e[3] == e[2..4][1] == e[..4][3];
    var m := Mark(c) + e;
    assert forall i :: 0 <= i < |Mark(c)| ==> m[i] == Mark(c)[i];
    assert c == Sixteen(Little) ==> m[2] == e[0];
  }

  /** MAIN: an object loads the same from its UTF-8, UTF-16 and UTF-32, in either byte order,
      with a byte order mark and without one. */
  lemma EncodingsLoadAlike(c: Codec, t: Str)
    requires Utf8.Encodable(t) && J.LoadsObject(t).Some?
    ensures LoadsBytes(EncodeAs(c, t)) == J.LoadsObject(t)
    ensures LoadsBytes(Mark(c) + EncodeAs(c, t)) == J.LoadsObject(t)
  {
    hide J.LoadsObject, Detect, EncodeAs, DecodeAs, Mark;
    ObjectStarts(t);
    DetectsCodec(c, t);
    DecodeEncodeAs(c, t);
    assert (Mark(c) + EncodeAs(c, t))[|Mark(c)|..] == EncodeAs(c, t);
  }
}
