/** The UTF-8 codec of RFC 3629: the encoder, and the incremental decoder that the
    streaming reader feeds with arbitrary chunks of bytes. */
module Utf8 {
  import opened Text

  /** A Unicode scalar value: a code point that is not a surrogate. */
  predicate Scalar(c: int) {
    0 <= c < 0xD800 || 0xE000 <= c < 0x110000
  }

  predicate Encodable(s: Str) {
    forall i :: 0 <= i < |s| ==> Scalar(s[i])
  }

  function EncodeChar(c: int): (r: Bytes)
    requires Scalar(c)
    ensures 1 <= |r| <= 4
  {
    if c < 0x80 then [c]
    else if c < 0x800 then [0xC0 + c / 64, 0x80 + c % 64]
    else
      var q := c / 64;
      if c < 0x10000 then [0xE0 + q / 64, 0x80 + q % 64, 0x80 + c % 64]
      else [0xF0 + q / 64 / 64, 0x80 + q / 64 % 64, 0x80 + q % 64, 0x80 + c % 64]
  }

  function Encode(s: Str): Bytes
    requires Encodable(s)
  {
    if s == [] then [] else EncodeChar(s[0]) + Encode(s[1..])
  }

  /** What one more byte does to a decoder that holds an incomplete sequence. */
  datatype Step = Invalid | More(pending: Bytes) | Emit(c: int)

  function Feed(pending: Bytes, b: int): Step
    requires |pending| <= 3
  {
    if pending == [] then
      if 0 <= b < 0x80 then Emit(b)
      else if 0xC2 <= b <= 0xF4 then More([b])
      else Invalid
    else
      var lead := pending[0];
      if !(0x80 <= b <= 0xBF) then Invalid
      else if |pending| == 1 && BadSecond(lead, b) then Invalid
      else if lead < 0xE0 then Emit((lead - 0xC0) * 64 + (b - 0x80))
      else if lead < 0xF0 then
        if |pending| == 1 then More(pending + [b])
        else Emit((lead - 0xE0) * 4096 + (pending[1] - 0x80) * 64 + (b - 0x80))
      else if |pending| < 3 then More(pending + [b])
      else Emit((lead - 0xF0) * 262144 + (pending[1] - 0x80) * 4096 + (pending[2] - 0x80) * 64 + (b - 0x80))
  }

  /** Second bytes that would start an overlong form, a surrogate or a value past U+10FFFF. */
  predicate BadSecond(lead: int, b: int) {
    || (lead == 0xE0 && b < 0xA0) || (lead == 0xED && b > 0x9F)
    || (lead == 0xF0 && b < 0x90) || (lead == 0xF4 && b > 0x8F)
  }

  datatype Decoded = Decoded(text: Str, pending: Bytes)

  /** `decoder.decode(bytes, final=False)` started with `pending` undecoded bytes;
      None stands for UnicodeDecodeError. */
  function Decode(pending: Bytes, bytes: Bytes): (r: Option<Decoded>)
    requires |pending| <= 3
    ensures r.Some? ==> |r.value.pending| <= 3
    decreases |bytes|
  {
    if bytes == [] then Some(Decoded([], pending))
    else
      match Feed(pending, bytes[0])
      case Invalid => None
      case More(p) => Decode(p, bytes[1..])
      case Emit(c) =>
        match Decode([], bytes[1..])
        case None => None
        case Some(d) => Some(Decoded([c] + d.text, d.pending))
  }

  /** Cutting the bytes anywhere changes nothing: the decoder may be fed in two calls. */
  lemma {:induction false} DecodeConcat(pending: Bytes, a: Bytes, b: Bytes)
    requires |pending| <= 3
    ensures match Decode(pending, a)
            case None => Decode(pending, a + b) == None
            case Some(d) =>
              match Decode(d.pending, b)
              case None => Decode(pending, a + b) == None
              case Some(e) => Decode(pending, a + b) == Some(Decoded(d.text + e.text, e.pending))
    decreases |a|
  {
    if a == [] {
      assert a + b == b;
      if Decode(pending, b).Some? {
        assert [] + Decode(pending, b).value.text == Decode(pending, b).value.text;
      }
    } else {
      assert (a + b)[0] == a[0] && (a + b)[1..] == a[1..] + b;
      match Feed(pending, a[0])
      case Invalid =>
      case More(p) => DecodeConcat(p, a[1..], b);
      case Emit(c) =>
        DecodeConcat([], a[1..], b);
        if Decode([], a[1..]).Some? {
          var d := Decode([], a[1..]).value;
          if Decode(d.pending, b).Some? {
            var e := Decode(d.pending, b).value;
            assert [c] + (d.text + e.text) == [c] + d.text + e.text;
          }
        }
    }
  }

  /** One encoded character in front of any bytes decodes to that character. */
  lemma DecodeChar(c: int, rest: Bytes)
    requires Scalar(c)
    ensures Decode([], EncodeChar(c) + rest) ==
            match Decode([], rest)
            case None => None
            case Some(d) => Some(Decoded([c] + d.text, d.pending))
  {
    var e := EncodeChar(c);
    var bytes := e + rest;
    if c < 0x80 {
      assert bytes[1..] == rest;
    } else if c < 0x800 {
      assert Feed([], e[0]) == More([e[0]]);
      assert bytes[1..][0] == e[1] && bytes[1..][1..] == rest;
      assert Feed([e[0]], e[1]) == Emit(c);
    } else if c < 0x10000 {
      DecodeThree(c, rest);
    } else {
      DecodeFour(c, rest);
    }
  }

  lemma DecodeThree(c: int, rest: Bytes)
    requires Scalar(c) && 0x800 <= c < 0x10000
    ensures Decode([], EncodeChar(c) + rest) ==
            match Decode([], rest)
            case None => None
            case Some(d) => Some(Decoded([c] + d.text, d.pending))
  {
    var e := EncodeChar(c);
    var b0 := e + rest;
    var b1 := b0[1..];
    var b2 := b1[1..];
    assert b1[0] == e[1] && b2[0] == e[2] && b2[1..] == rest;
    assert Feed([], e[0]) == More([e[0]]);
    assert Feed([e[0]], e[1]) == More([e[0], e[1]]);
    assert Feed([e[0], e[1]], e[2]) == Emit(c);
    assert Decode([], b0) == Decode([e[0]], b1) == Decode([e[0], e[1]], b2);
  }

  lemma DecodeFour(c: int, rest: Bytes)
    requires Scalar(c) && 0x10000 <= c
    ensures Decode([], EncodeChar(c) + rest) ==
            match Decode([], rest)
            case None => None
            case Some(d) => Some(Decoded([c] + d.text, d.pending))
  {
    var e := EncodeChar(c);
    var b0 := e + rest;
    var b1 := b0[1..];
    var b2 := b1[1..];
    var b3 := b2[1..];
    assert b1[0] == e[1] && b2[0] == e[2] && b3[0] == e[3] && b3[1..] == rest;
    assert Feed([], e[0]) == More([e[0]]);
    assert Feed([e[0]], e[1]) == More([e[0], e[1]]);
    assert Feed([e[0], e[1]], e[2]) == More([e[0], e[1], e[2]]);
    assert Feed([e[0], e[1], e[2]], e[3]) == Emit(c);
    assert Decode([], b0) == Decode([e[0]], b1) == Decode([e[0], e[1]], b2) == Decode([e[0], e[1], e[2]], b3);
  }

  /** Decoding inverts encoding, for every text without surrogates. */
  lemma {:induction false} DecodeEncode(s: Str)
    requires Encodable(s)
    ensures Decode([], Encode(s)) == Some(Decoded(s, []))
  {
    if s != [] {
      DecodeEncode(s[1..]);
      DecodeChar(s[0], Encode(s[1..]));
      assert [s[0]] + s[1..] == s;
    }
  }

  /** What a decoder can hold of an incomplete sequence. */
  predicate Held(p: Bytes) {
    && |p| <= 3
    && (p != [] ==> 0xC2 <= p[0] <= 0xF4)
    && (|p| >= 2 ==> 0xE0 <= p[0] && 0x80 <= p[1] <= 0xBF && !BadSecond(p[0], p[1]))
    && (|p| == 3 ==> 0xF0 <= p[0] && 0x80 <= p[2] <= 0xBF)
  }

  lemma Digits64(x: int, r: int, c: int)
    requires c == x * 64 + r && 0 <= r < 64
    ensures c / 64 == x && c % 64 == r
  {
  }

  lemma TwoBytes(p: int, b: int)
    requires 0xC2 <= p < 0xE0 && 0x80 <= b <= 0xBF
    ensures var c := (p - 0xC0) * 64 + (b - 0x80); Scalar(c) && EncodeChar(c) == [p, b]
  {
    Digits64(p - 0xC0, b - 0x80, (p - 0xC0) * 64 + (b - 0x80));
  }

  lemma ThreeBytes(p: int, q: int, b: int)
    requires 0xE0 <= p < 0xF0 && 0x80 <= q <= 0xBF && !BadSecond(p, q) && 0x80 <= b <= 0xBF
    ensures var c := (p - 0xE0) * 4096 + (q - 0x80) * 64 + (b - 0x80); Scalar(c) && EncodeChar(c) == [p, q, b]
  {
    var x := (p - 0xE0) * 64 + (q - 0x80);
    Digits64(x, b - 0x80, (p - 0xE0) * 4096 + (q - 0x80) * 64 + (b - 0x80));
    Digits64(p - 0xE0, q - 0x80, x);
  }

  lemma FourBytes(p: int, q: int, r: int, b: int)
    requires 0xF0 <= p <= 0xF4 && 0x80 <= q <= 0xBF && !BadSecond(p, q) && 0x80 <= r <= 0xBF && 0x80 <= b <= 0xBF
    ensures var c := (p - 0xF0) * 262144 + (q - 0x80) * 4096 + (r - 0x80) * 64 + (b - 0x80);
            Scalar(c) && EncodeChar(c) == [p, q, r, b]
  {
    var y := (p - 0xF0) * 64 + (q - 0x80);
    var x := y * 64 + (r - 0x80);
    Digits64(x, b - 0x80, x * 64 + (b - 0x80));
    Digits64(y, r - 0x80, x);
    Digits64(p - 0xF0, q - 0x80, y);
  }

  /** A byte completes the encoding of one character, or leaves an incomplete one. */
  lemma FeedIsEncode(p: Bytes, b: int)
    requires Held(p)
    ensures Feed(p, b).More? ==> Feed(p, b).pending == p + [b] && Held(p + [b])
    ensures Feed(p, b).Emit? ==> Scalar(Feed(p, b).c) && EncodeChar(Feed(p, b).c) == p + [b]
  {
    hide EncodeChar;
    if Feed(p, b).Emit? {
      if |p| == 0 {
        assert EncodeChar(b) == [b] by {
          OneByte(b);
        }
      } else if |p| == 1 {
        TwoBytes(p[0], b);
      } else if |p| == 2 {
        ThreeBytes(p[0], p[1], b);
      } else {
        FourBytes(p[0], p[1], p[2], b);
      }
    }
  }

  lemma OneByte(b: int)
    requires 0 <= b < 0x80
    ensures EncodeChar(b) == [b]
  {
  }

  lemma {:induction false} DecodeSound(p: Bytes, bytes: Bytes)
    requires Held(p) && Decode(p, bytes).Some? && Decode(p, bytes).value.pending == []
    ensures var t := Decode(p, bytes).value.text; Encodable(t) && Encode(t) == p + bytes
    decreases |bytes|
  {
    hide Feed, EncodeChar, BadSecond;
    if bytes != [] {
      FeedIsEncode(p, bytes[0]);
      assert p + bytes == p + [bytes[0]] + bytes[1..];
      match Feed(p, bytes[0])
      case More(q) => DecodeSound(q, bytes[1..]);
      case Emit(c) =>
        assert Held([]) by {
          NothingHeld();
        }
        DecodeSound([], bytes[1..]);
        var d := Decode([], bytes[1..]).value;
        assert ([c] + d.text)[1..] == d.text;
        assert [] + bytes[1..] == bytes[1..];
    }
  }

  lemma NothingHeld()
    ensures Held([])
  {
  }

  /** MAIN: bytes decode to a text if and only if they are its encoding. */
  lemma DecodeExactly(bytes: Bytes, t: Str)
    ensures Decode([], bytes) == Some(Decoded(t, [])) <==> Encodable(t) && Encode(t) == bytes
  {
    if Decode([], bytes) == Some(Decoded(t, [])) {
      DecodeSound([], bytes);
      assert [] + bytes == bytes;
    }
    if Encodable(t) {
      DecodeEncode(t);
    }
  }

  lemma EncodeInjective(s: Str, t: Str)
    requires Encodable(s) && Encodable(t)
    requires Encode(s) == Encode(t)
    ensures s == t
  {
    DecodeEncode(s);
    DecodeEncode(t);
  }

  /** Two encodings of different characters first differ at a byte both of them have. */
  lemma FirstDifference(c: int, d: int) returns (i: nat)
    requires Scalar(c) && Scalar(d) && c < d
    ensures i < |EncodeChar(c)| && i < |EncodeChar(d)|
    ensures EncodeChar(c)[..i] == EncodeChar(d)[..i]
    ensures EncodeChar(c)[i] < EncodeChar(d)[i]
  {
    var e, f := EncodeChar(c), EncodeChar(d);
    if e[0] != f[0] {
      i := 0;
    } else if c < 0x800 {
      i := 1;
    } else {
      assert |e| == |f|;
      var n := |e|;
      if c / 64 == d / 64 {
        i := n - 1;
      } else if c / 64 / 64 == d / 64 / 64 {
        i := n - 2;
      } else {
        i := n - 3;
      }
    }
  }

  lemma LexAt(a: seq<int>, b: seq<int>, i: nat)
    requires i < |a| && i < |b|
    requires a[..i] == b[..i] && a[i] < b[i]
    ensures LexLess(a, b)
  {
    if i > 0 {
      assert a[0] == a[..i][0] == b[0];
      assert a[1..][..i - 1] == a[..i][1..] == b[..i][1..] == b[1..][..i - 1];
      LexAt(a[1..], b[1..], i - 1);
    }
  }

  /** A smaller character has a smaller encoding, whatever follows. */
  lemma EncodeCharOrder(c: int, d: int, x: Bytes, y: Bytes)
    requires Scalar(c) && Scalar(d) && c < d
    ensures LexLess(EncodeChar(c) + x, EncodeChar(d) + y)
  {
    var i := FirstDifference(c, d);
    var a, b := EncodeChar(c) + x, EncodeChar(d) + y;
    assert a[..i] == EncodeChar(c)[..i] && b[..i] == EncodeChar(d)[..i];
    LexAt(a, b, i);
  }

  /** Byte order of the encodings is code-point order of the texts (section 1 of RFC 3629). */
  lemma {:induction false} EncodeOrder(s: Str, t: Str)
    requires Encodable(s) && Encodable(t)
    ensures LexLess(Encode(s), Encode(t)) <==> LexLess(s, t)
  {
    if s == [] || t == [] {
    } else if s[0] < t[0] {
      EncodeCharOrder(s[0], t[0], Encode(s[1..]), Encode(t[1..]));
    } else if t[0] < s[0] {
      EncodeCharOrder(t[0], s[0], Encode(t[1..]), Encode(s[1..]));
      LexAsymmetric(Encode(t), Encode(s));
    } else {
      EncodeOrder(s[1..], t[1..]);
      LexCommonPrefix(EncodeChar(s[0]), Encode(s[1..]), Encode(t[1..]));
    }
  }

  lemma LexAsymmetric(a: seq<int>, b: seq<int>)
    requires LexLess(a, b)
    ensures !LexLess(b, a)
  {
    if LexLess(b, a) {
      LexTransitive(a, b, a);
      LexIrreflexive(a);
    }
  }
}
