/** Feature kinds and the normalisation of feature values, with the digest key of a feature. */
module Normalization {
  import opened Text
  import Utf8

  datatype Kind = KString | KOpcode | KImphash | KExport

  type Digest = d: Bytes | |d| == 32 witness seq(32, _ => 0)

  /** What the model takes from outside: `str.lower`, Unicode NFC and SHA-256. */
  datatype Env = Env(lower: Str -> Str, nfc: Str -> Str, sha256: Bytes -> Digest)

  const BACKSLASH := '\\' as int
  const QUOTE := '"' as int
  const UTF16_MARKER: Str := Ascii("UTF16LE:")

  predicate EscapeAt(v: Str, i: nat) {
    i + 1 < |v| && v[i] == BACKSLASH && (v[i + 1] == BACKSLASH || v[i + 1] == QUOTE)
  }

  /** Undo the two escapes yarGen applies, reading from the left. */
  function Unescape(v: Str): Str {
    if v == [] then []
    else if EscapeAt(v, 0) then [v[1]] + Unescape(v[2..])
    else [v[0]] + Unescape(v[1..])
  }

  /** The escapes yarGen applies. */
  function Escape(v: Str): Str {
    if v == [] then []
    else (if v[0] == BACKSLASH || v[0] == QUOTE then [BACKSLASH, v[0]] else [v[0]]) + Escape(v[1..])
  }

  /** MAIN: `_unescape_yargen_string` inverts yarGen's escaping on every string. */
  lemma {:induction false} UnescapeEscape(v: Str)
    ensures Unescape(Escape(v)) == v
  {
    if v != [] {
      UnescapeEscape(v[1..]);
      var e := Escape(v);
      if v[0] == BACKSLASH || v[0] == QUOTE {
        assert EscapeAt(e, 0) && e[2..] == Escape(v[1..]);
      } else {
        assert e[1..] == Escape(v[1..]);
      }
      assert v == [v[0]] + v[1..];
    }
  }

  /** It is lossy on other texts, so it must not be applied twice. */
  lemma UnescapeNotIdempotent()
    ensures var v := [BACKSLASH, BACKSLASH, QUOTE];
            Unescape(v) == [BACKSLASH, QUOTE] && Unescape(Unescape(v)) == [QUOTE]
  {
    var v := [BACKSLASH, BACKSLASH, QUOTE];
    assert EscapeAt(v, 0) && v[2..] == [QUOTE];
    assert Unescape([QUOTE]) == [QUOTE] + Unescape([]);
    var w := [BACKSLASH, QUOTE];
    assert EscapeAt(w, 0) && w[2..] == [];
  }

  /** The loop of `_unescape_yargen_string`. */
  method UnescapeLoop(value: Str) returns (output: Str)
    ensures output == Unescape(value)
  {
    output := [];
    var index := 0;
    while index < |value|
      invariant index <= |value|
      invariant output + Unescape(value[index..]) == Unescape(value)
    {
      ghost var rest := value[index..];
      assert EscapeAt(value, index) <==> EscapeAt(rest, 0);
      if EscapeAt(value, index) {
        assert rest[2..] == value[index + 2..];
        assert output + ([rest[1]] + Unescape(rest[2..])) == output + [rest[1]] + Unescape(rest[2..]);
        output := output + [value[index + 1]];
        index := index + 2;
      } else {
        assert rest[1..] == value[index + 1..];
        assert output + ([rest[0]] + Unescape(rest[1..])) == output + [rest[0]] + Unescape(rest[1..]);
        output := output + [value[index]];
        index := index + 1;
      }
    }
    assert value[index..] == [];
  }

  // ----- what a written key says

  /** A character, or an escape and the character it stands for. */
  predicate Segment(s: Str) {
    |s| == 1 || (|s| == 2 && s[0] == BACKSLASH && (s[1] == BACKSLASH || s[1] == QUOTE))
  }

  /** A key cut into segments; a backslash alone is one only when no escape starts with it. */
  predicate Segments(segs: seq<Str>) {
    && (forall i :: 0 <= i < |segs| ==> Segment(segs[i]))
    && (forall i :: 0 <= i < |segs| - 1 && segs[i] == [BACKSLASH] ==> segs[i + 1][0] != BACKSLASH && segs[i + 1][0] != QUOTE)
  }

  /** The characters the segments stand for. */
  function Lasts(segs: seq<Str>): (r: Str)
    requires Segments(segs)
    ensures |r| == |segs|
  {
    seq(|segs|, i requires 0 <= i < |segs| => segs[i][|segs[i]| - 1])
  }

  ghost predicate Cuts(raw: Str, segs: seq<Str>, text: Str) {
    Segments(segs) && raw == Concat(segs) && text == Lasts(segs)
  }

  lemma {:induction false} SegmentsRead(segs: seq<Str>)
    requires Segments(segs)
    ensures Unescape(Concat(segs)) == Lasts(segs)
  {
    if segs != [] {
      var s, rest, raw := segs[0], Concat(segs[1..]), Concat(segs);
      SegmentsRead(segs[1..]);
      assert raw == s + rest && raw[|s|..] == rest;
      if |segs| > 1 {
        assert rest == segs[1] + Concat(segs[1..][1..]) && rest[0] == segs[1][0];
      }
      assert EscapeAt(raw, 0) <==> |s| == 2;
      assert Lasts(segs) == [s[|s| - 1]] + Lasts(segs[1..]);
    }
  }

  lemma {:induction false} SegmentsOf(raw: Str) returns (segs: seq<Str>)
    ensures Cuts(raw, segs, Unescape(raw))
    ensures raw != [] ==> segs != [] && segs[0][0] == raw[0]
    decreases |raw|
  {
    if raw == [] {
      segs := [];
    } else {
      var n := if EscapeAt(raw, 0) then 2 else 1;
      var more := SegmentsOf(raw[n..]);
      segs := [raw[..n]] + more;
      assert segs[1..] == more && raw == raw[..n] + raw[n..];
      assert raw[n..] != [] ==> raw[n..][0] == raw[n];
      assert Lasts(segs) == [raw[n - 1]] + Lasts(more);
    }
  }

  /** MAIN: a key is unescaped to a text exactly when its segments stand for it. */
  lemma UnescapeExactly(raw: Str, text: Str)
    ensures Unescape(raw) == text <==> exists segs :: Cuts(raw, segs, text)
  {
    var segs := SegmentsOf(raw);
    if q :| Cuts(raw, q, text) {
      SegmentsRead(q);
    }
  }

  predicate IsLowerHex(v: Str) {
    forall i :: 0 <= i < |v| ==> IsDigit(v[i]) || 'a' as int <= v[i] <= 'f' as int
  }

  /** `re.sub(r"\s+", "", v)`. */
  function RemoveSpace(v: Str): Str {
    if v == [] then []
    else (if IsSpace(v[0]) then [] else [v[0]]) + RemoveSpace(v[1..])
  }

  /** It leaves the other characters, in order. */
  lemma {:induction false} RemoveSpaceConcat(a: Str, b: Str)
    ensures RemoveSpace(a + b) == RemoveSpace(a) + RemoveSpace(b)
    ensures |a| == 1 ==> RemoveSpace(a) == if IsSpace(a[0]) then [] else a
  {
    if a == [] {
      assert a + b == b;
    } else {
      assert (a + b)[1..] == a[1..] + b;
      RemoveSpaceConcat(a[1..], b);
    }
  }

  predicate GoodOpcode(v: Str) {
    16 <= |v| <= 32 && |v| % 2 == 0 && IsLowerHex(v)
  }

  predicate GoodImphash(v: Str) {
    |v| == 32 && IsLowerHex(v)
  }

  function NonEmpty(v: Str): Option<Str> {
    if v == [] then None else Some(v)
  }

  /** `normalize_value`; None is GoodwareImportError. */
  function Normalize(env: Env, kind: Kind, value: Str): Option<Str> {
    match kind
    case KString =>
      var decoded := Unescape(value);
      NonEmpty(env.lower(if UTF16_MARKER <= decoded then decoded[|UTF16_MARKER|..] else decoded))
    case KExport => NonEmpty(env.lower(value))
    case KImphash =>
      var v := env.lower(Strip(value));
      if value != [] && GoodImphash(v) then Some(v) else None
    case KOpcode =>
      var v := env.lower(RemoveSpace(value));
      if GoodOpcode(v) then Some(v) else None
  }

  // ----- what it computes

  /** The empty keys yarGen writes for files without strings or imports. */
  predicate EmptyMark(kind: Kind, raw: Str) {
    raw == [] && kind in {KString, KImphash}
  }

  /** An entry of a source counts for the value: for a string, what its segments say, less the
      marker, in lower case; for an export the key in lower case; for an import hash 32 digits with
      white space around them; for an opcode fragment 8 to 16 bytes with white space anywhere. */
  ghost predicate Means(env: Env, kind: Kind, raw: Str, value: Str) {
    match kind
    case KString =>
      && value != []
      && exists segs, text, v :: Cuts(raw, segs, text) && Unmarked(text, v) && value == env.lower(v)
    case KExport => value != [] && value == env.lower(raw)
    case KImphash =>
      && raw != [] && |value| == 32 && IsLowerHex(value)
      && exists pre, core, post :: StrippedOf(raw, pre, core, post) && value == env.lower(core)
    case KOpcode =>
      && |value| in {16, 18, 20, 22, 24, 26, 28, 30, 32} && IsLowerHex(value) && value == env.lower(RemoveSpace(raw))
  }

  /** v is the text without the marker it may start with. */
  predicate Unmarked(text: Str, v: Str) {
    text == UTF16_MARKER + v || (text == v && !(UTF16_MARKER <= text))
  }

  /** MAIN: `normalize_value` gives an entry exactly the value it counts for. */
  lemma NormalizeExactly(env: Env, kind: Kind, raw: Str, value: Str)
    ensures Normalize(env, kind, raw) == Some(value) <==> Means(env, kind, raw, value)
  {
    hide Cuts, StrippedOf, IsLowerHex, Strip;
    match kind
    case KString => StringExactly(env, raw, value);
    case KImphash =>
      StripExactly(raw, Strip(raw));
      if exists pre, core, post :: StrippedOf(raw, pre, core, post) && value == env.lower(core) {
        var pre, core, post :| StrippedOf(raw, pre, core, post) && value == env.lower(core);
        StripExactly(raw, core);
      }
    case _ =>
  }

  lemma StringExactly(env: Env, raw: Str, value: Str)
    ensures Normalize(env, KString, raw) == Some(value) <==> Means(env, KString, raw, value)
  {
    hide Cuts;
    var text := Unescape(raw);
    UnescapeExactly(raw, text);
    var v := if UTF16_MARKER <= text then text[|UTF16_MARKER|..] else text;
    assert Unmarked(text, v);
    if exists segs, s, w :: Cuts(raw, segs, s) && Unmarked(s, w) && value == env.lower(w) {
      var segs, s, w :| Cuts(raw, segs, s) && Unmarked(s, w) && value == env.lower(w);
      UnescapeExactly(raw, s);
      assert w == v;
    }
  }

  /** MAIN: what yarGen writes for a text, and for its UTF-16 form, both count for the text in
      lower case. */
  lemma WrittenKeys(env: Env, v: Str)
    requires env.lower(v) != []
    ensures Means(env, KString, Escape(UTF16_MARKER + v), env.lower(v))
    ensures !(UTF16_MARKER <= v) ==> Means(env, KString, Escape(v), env.lower(v))
  {
    UnescapeEscape(UTF16_MARKER + v);
    UnescapeEscape(v);
    assert (UTF16_MARKER + v)[|UTF16_MARKER|..] == v;
    NormalizeExactly(env, KString, Escape(UTF16_MARKER + v), env.lower(v));
    NormalizeExactly(env, KString, Escape(v), env.lower(v));
  }

  function KindName(kind: Kind): Bytes {
    match kind
    case KString => Ascii("string")
    case KOpcode => Ascii("opcode_fragment16")
    case KImphash => Ascii("imphash")
    case KExport => Ascii("export")
  }

  /** Each kind has its own name. */
  lemma KindNamesExactly(k: Kind)
    ensures KindName(k) == Ascii("string") <==> k == KString
    ensures KindName(k) == Ascii("opcode_fragment16") <==> k == KOpcode
    ensures KindName(k) == Ascii("imphash") <==> k == KImphash
    ensures KindName(k) == Ascii("export") <==> k == KExport
  {
    assert Ascii("string")[0] == 's' as int && Ascii("export")[0] == 'e' as int;
    assert |Ascii("string")| == |Ascii("export")| == 6 && |Ascii("imphash")| == 7 && |Ascii("opcode_fragment16")| == 17;
  }

  const KEY_VERSION: Bytes := Ascii("autowork-goodware-key-v1")

  /** The bytes that `lookup_key` hashes. */
  function Message(kind: Kind, value: Str): Bytes
    requires Utf8.Encodable(value)
  {
    KEY_VERSION + [0] + KindName(kind) + [0] + Utf8.Encode(value)
  }

  /** `lookup_key`; None is the error of a value UTF-8 cannot encode. */
  function LookupKey(env: Env, kind: Kind, value: Str): Option<Digest> {
    if Utf8.Encodable(value) then Some(env.sha256(Message(kind, value))) else None
  }

  lemma SameTail(p: Bytes, a: Bytes, b: Bytes)
    requires p + a == p + b
    ensures a == b
  {
    assert a == (p + a)[|p|..] && b == (p + b)[|p|..];
  }

  /** Different features are hashed from different bytes. */
  lemma MessageInjective(k: Kind, v: Str, k': Kind, v': Str)
    requires Utf8.Encodable(v) && Utf8.Encodable(v')
    requires Message(k, v) == Message(k', v')
    ensures k == k' && v == v'
  {
    var n := |KEY_VERSION| + 1;
    assert Message(k, v)[n] == KindName(k)[0];
    assert Message(k', v')[n] == KindName(k')[0];
    assert k == k';
    SameTail(KEY_VERSION + [0] + KindName(k) + [0], Utf8.Encode(v), Utf8.Encode(v'));
    Utf8.EncodeInjective(v, v');
  }
}
