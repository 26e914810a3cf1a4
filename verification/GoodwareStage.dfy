/** The v1 stage: one table row per feature, printed as sorted canonical JSON lines, and the
    verifier of such a file. None stands for a refused input. */
module GoodwareStage {
  import opened Text
  import opened Normalization
  import opened UpsertTable
  import B = JsonBytes
  import J = JsonScanner
  import C = CanonicalJson
  import G = JsonGrammar
  import JS = JsonStream
  import T = JsonTree
  import Utf8

  datatype Record = Record(kind: Kind, value: Str, count: int)

  const LINE_FEED := 0x0A

  // ----- normalisation

  /** `normalize_value_v1`. */
  function NormalizeV1(env: Env, kind: Kind, value: Str): Option<Str> {
    match kind
    case KString =>
      NonEmpty(if UTF16_MARKER <= value
               then UTF16_MARKER + env.nfc(Unescape(value[|UTF16_MARKER|..]))
               else env.nfc(Unescape(value)))
    case KExport => NonEmpty(env.nfc(value))
    case KImphash =>
      var v := env.lower(Strip(value));
      if GoodImphash(v) then Some(v) else None
    case KOpcode =>
      var v := env.lower(RemoveSpace(value));
      if GoodOpcode(v) then Some(v) else None
  }

  /** An entry of a v1 source counts for the value: for a string, NFC of what its segments say, the
      marker kept in front; for an export NFC of the key; digits as in the v2 index. */
  ghost predicate MeansV1(env: Env, kind: Kind, raw: Str, value: Str) {
    match kind
    case KString =>
      && value != []
      && exists segs, rest, text ::
           Cuts(rest, segs, text) && (if UTF16_MARKER <= raw then raw == UTF16_MARKER + rest && value == UTF16_MARKER + env.nfc(text)
                                      else raw == rest && value == env.nfc(text))
    case KExport => value != [] && value == env.nfc(raw)
    case KImphash =>
      && |value| == 32 && IsLowerHex(value)
      && exists pre, core, post :: StrippedOf(raw, pre, core, post) && value == env.lower(core)
    case KOpcode => Means(env, KOpcode, raw, value)
  }

  /** MAIN: `normalize_value_v1` gives an entry exactly the value it counts for. */
  lemma NormalizeV1Exactly(env: Env, kind: Kind, raw: Str, value: Str)
    ensures NormalizeV1(env, kind, raw) == Some(value) <==> MeansV1(env, kind, raw, value)
  {
    hide Cuts, StrippedOf, IsLowerHex, Strip;
    match kind
    case KString => StringV1Exactly(env, raw, value);
    case KImphash =>
      StripExactly(raw, Strip(raw));
      if exists pre, core, post :: StrippedOf(raw, pre, core, post) && value == env.lower(core) {
        var pre, core, post :| StrippedOf(raw, pre, core, post) && value == env.lower(core);
        StripExactly(raw, core);
      }
    case _ =>
  }

  lemma StringV1Exactly(env: Env, raw: Str, value: Str)
    ensures NormalizeV1(env, KString, raw) == Some(value) <==> MeansV1(env, KString, raw, value)
  {
    hide Cuts;
    var marked := UTF16_MARKER <= raw;
    var rest := if marked then raw[|UTF16_MARKER|..] else raw;
    assert marked ==> raw == UTF16_MARKER + rest;
    UnescapeExactly(rest, Unescape(rest));
    if MeansV1(env, KString, raw, value) {
      var segs, r, text :|
        Cuts(r, segs, text) && (if marked then raw == UTF16_MARKER + r && value == UTF16_MARKER + env.nfc(text)
                                else raw == r && value == env.nfc(text));
      assert r == rest;
      UnescapeExactly(rest, text);
    }
  }

  lemma {:induction false} EscapeAppend(a: Str, b: Str)
    requires forall i :: 0 <= i < |a| ==> a[i] != BACKSLASH && a[i] != QUOTE
    ensures Escape(a + b) == a + Escape(b)
  {
    if a == [] {
      assert a + b == b;
    } else {
      assert (a + b)[1..] == a[1..] + b;
      EscapeAppend(a[1..], b);
      assert a == [a[0]] + a[1..];
    }
  }

  lemma {:induction false} EscapeKeepsStart(p: Str, v: Str)
    requires forall i :: 0 <= i < |p| ==> p[i] != BACKSLASH && p[i] != QUOTE
    ensures p <= Escape(v) <==> p <= v
  {
    if p != [] && v != [] {
      var e := Escape(v);
      if v[0] == p[0] {
        EscapeKeepsStart(p[1..], v[1..]);
        assert e[1..] == Escape(v[1..]);
        assert p == [p[0]] + p[1..] && v == [v[0]] + v[1..] && e == [e[0]] + e[1..];
      } else {
        assert e[0] != p[0];
      }
    }
  }

  /** MAIN: what yarGen writes for a text is stored as its NFC, and its UTF-16 form as that behind
      the marker: the two stay apart, unlike in the v2 index. */
  lemma WrittenKeysV1(env: Env, v: Str)
    ensures NormalizeV1(env, KString, Escape(UTF16_MARKER + v)) == Some(UTF16_MARKER + env.nfc(v))
    ensures !(UTF16_MARKER <= v) ==> NormalizeV1(env, KString, Escape(v)) == if env.nfc(v) == [] then None else Some(env.nfc(v))
  {
    EscapeAppend(UTF16_MARKER, v);
    assert (UTF16_MARKER + Escape(v))[|UTF16_MARKER|..] == Escape(v);
    UnescapeEscape(v);
    EscapeKeepsStart(UTF16_MARKER, v);
  }

  /** The verifier's test: strings are not unescaped a second time. */
  predicate Normalized(env: Env, kind: Kind, value: Str) {
    if kind == KString then value != [] && env.nfc(value) == value
    else NormalizeV1(env, kind, value) == Some(value)
  }

  /** What Unicode says of NFC and of lower case, for the texts that matter here. */
  ghost predicate UnicodeLaws(env: Env) {
    && (forall s: Str :: env.nfc(env.nfc(s)) == env.nfc(s))
    && (forall s: Str :: env.nfc(UTF16_MARKER + env.nfc(s)) == UTF16_MARKER + env.nfc(s))
    && (forall s: Str :: IsLowerHex(s) ==> env.lower(s) == s)
  }

  lemma {:induction false} HexHasNoSpace(s: Str)
    requires IsLowerHex(s)
    ensures StripLeft(s) == s && StripRight(s) == s && RemoveSpace(s) == s
  {
    if s != [] {
      assert IsLowerHex(s[1..]);
      HexHasNoSpace(s[1..]);
      assert [s[0]] + s[1..] == s;
    }
  }

  /** Whatever a builder normalises passes the verifier's test. */
  lemma NormalizedOnce(env: Env, kind: Kind, value: Str)
    requires UnicodeLaws(env) && NormalizeV1(env, kind, value).Some?
    ensures Normalized(env, kind, NormalizeV1(env, kind, value).value)
  {
    var v := NormalizeV1(env, kind, value).value;
    if kind.KImphash? || kind.KOpcode? {
      HexHasNoSpace(v);
    }
  }

  /** So the verifier takes: digits of the right number, in lower case and without white space,
      and other text that is not empty and its own NFC. */
  lemma NormalizedExactly(env: Env, kind: Kind, value: Str)
    requires UnicodeLaws(env)
    ensures Normalized(env, kind, value) <==>
            match kind
            case KImphash => |value| == 32 && IsLowerHex(value)
            case KOpcode => |value| in {16, 18, 20, 22, 24, 26, 28, 30, 32} && IsLowerHex(value)
            case _ => value != [] && env.nfc(value) == value
  {
    if IsLowerHex(value) {
      HexHasNoSpace(value);
    }
  }

  // ----- aggregation

  type Key = (Kind, Str)

  /** The kind of a source and the items of the `dict` that `json.loads` made of it. */
  datatype Source = Source(kind: Kind, items: seq<JS.Item>)

  datatype Entry = Bad | Sentinel | Good(r: Row<Key>)

  /** One pair of a source; a value that UTF-8 cannot encode cannot be stored. */
  function ReadEntry(env: Env, kind: Kind, item: JS.Item): (e: Entry)
    ensures e.Good? ==> 1 <= e.r.count <= JS.MAX_SQLITE_COUNT && e.r.key.0 == kind && Utf8.Encodable(e.r.key.1)
  {
    if !JS.ValidCount(item.1) then Bad
    else if (kind.KString? || kind.KImphash?) && item.0 == [] then Sentinel
    else
      match NormalizeV1(env, kind, item.0)
      case None => Bad
      case Some(v) => if Utf8.Encodable(v) then Good(Row((kind, v), item.1.n)) else Bad
  }

  predicate Readable(env: Env, s: Source) {
    forall i :: 0 <= i < |s.items| ==> ReadEntry(env, s.kind, s.items[i]) != Bad
  }

  function RowsOf(env: Env, kind: Kind, items: seq<JS.Item>): seq<Row<Key>> {
    if items == [] then []
    else
      var last := |items| - 1;
      var e := ReadEntry(env, kind, items[last]);
      RowsOf(env, kind, items[..last]) + (if e.Good? then [e.r] else [])
  }

  /** `_aggregate`: from the bytes of the files, batches of any size leave the table of one
      insertion per usable pair. */
  method Aggregate(env: Env, max: int, files: seq<File>, batch: nat) returns (ok: bool, t: Table<Key>)
    requires batch >= 1
    ensures ok <==> AllAccepted(env, max, files)
    ensures ok ==> t == Upserts(map[], AllRows(env, max, files))
  {
    hide RowsOf, Upserts, Readable, LoadSource;
    t := map[];
    UpsertsNone(t);
    for i := 0 to |files|
      invariant AllAccepted(env, max, files[..i])
      invariant t == Upserts(map[], AllRows(env, max, files[..i]))
    {
      match LoadSource(max, files[i]) {
        case None =>
          assert !Accepted(env, max, files[i]);
          return false, t;
        case Some(s) =>
          ok, t := AggregateSource(env, s, batch, t);
          if !ok {
            assert !Accepted(env, max, files[i]);
            return;
          }
          OneMoreFile(env, max, files, i, s);
      }
    }
    assert files[..|files|] == files;
    ok := true;
  }

  lemma OneMoreFile(env: Env, max: int, files: seq<File>, i: nat, s: Source)
    requires i < |files| && AllAccepted(env, max, files[..i]) && LoadSource(max, files[i]) == Some(s) && Readable(env, s)
    ensures AllAccepted(env, max, files[..i + 1])
    ensures Upserts(map[], AllRows(env, max, files[..i + 1])) ==
            Upserts(Upserts(map[], AllRows(env, max, files[..i])), RowsOf(env, s.kind, s.items))
  {
    hide RowsOf, Upserts, Readable, LoadSource;
    assert files[..i + 1][..i] == files[..i] && files[..i + 1][i] == files[i];
    UpsertsAppend(map[], AllRows(env, max, files[..i]), RowsOf(env, s.kind, s.items));
  }

  method AggregateSource(env: Env, s: Source, batch: nat, start: Table<Key>) returns (ok: bool, t: Table<Key>)
    requires batch >= 1
    ensures ok <==> Readable(env, s)
    ensures ok ==> t == Upserts(start, RowsOf(env, s.kind, s.items))
  {
    hide ReadEntry, Upserts;
    t := start;
    var rows: seq<Row<Key>> := [];
    ghost var done: seq<Row<Key>> := [];
    UpsertsNone(start);
    for i := 0 to |s.items|
      invariant forall j :: 0 <= j < i ==> ReadEntry(env, s.kind, s.items[j]) != Bad
      invariant done + rows == RowsOf(env, s.kind, s.items[..i])
      invariant t == Upserts(start, done)
    {
      assert s.items[..i + 1][..i] == s.items[..i];
      match ReadEntry(env, s.kind, s.items[i]) {
        case Bad =>
          assert !Readable(env, s);
          return false, t;
        case Sentinel =>
        case Good(r) =>
          rows := rows + [r];
      }
      if |rows| >= batch {
        UpsertsAppend(start, done, rows);
        t := InsertRows(t, rows);
        done, rows := done + rows, [];
      }
    }
    assert s.items[..|s.items|] == s.items;
    UpsertsAppend(start, done, rows);
    t := InsertRows(t, rows);
    ok := true;
  }

  // ----- the order of the records

  /** Python's order of `(kind, value)` tuples. */
  predicate KeyLess(a: Key, b: Key) {
    LexLess(KindName(a.0), KindName(b.0)) || (a.0 == b.0 && LexLess(a.1, b.1))
  }

  /** SQLite's ORDER BY: kinds, then values, each compared as UTF-8 bytes. */
  predicate RowLess(a: Key, b: Key)
    requires Utf8.Encodable(a.1) && Utf8.Encodable(b.1)
  {
    LexLess(KindName(a.0), KindName(b.0)) || (a.0 == b.0 && LexLess(Utf8.Encode(a.1), Utf8.Encode(b.1)))
  }

  lemma SameOrder(a: Key, b: Key)
    requires Utf8.Encodable(a.1) && Utf8.Encodable(b.1)
    ensures RowLess(a, b) == KeyLess(a, b)
  {
    Utf8.EncodeOrder(a.1, b.1);
  }

  function KeyOf(r: Record): Key {
    (r.kind, r.value)
  }

  /** The integer that `int(count)` makes of a cell; `rounded` gives the float of a REAL sum. */
  function CountOf(t: Table<Key>, k: Key, rounded: Key -> int): int
    requires k in t
  {
    if t[k].Int? then t[k].n else rounded(k)
  }

  /** What the cursor of `_write_records` delivers: every row once, in SQLite's order. */
  ghost predicate Cursor(t: Table<Key>, rounded: Key -> int, rows: seq<Record>) {
    && (forall i :: 0 <= i < |rows| ==> Utf8.Encodable(rows[i].value))
    && (forall i :: 0 <= i < |rows| ==> KeyOf(rows[i]) in t && rows[i].count == CountOf(t, KeyOf(rows[i]), rounded))
    && (forall k :: k in t ==> exists i :: 0 <= i < |rows| && KeyOf(rows[i]) == k)
    && (forall i :: 0 <= i < |rows| - 1 ==> RowLess(KeyOf(rows[i]), KeyOf(rows[i + 1])))
  }

  predicate Ascending(rows: seq<Record>) {
    forall i :: 0 <= i < |rows| - 1 ==> KeyLess(KeyOf(rows[i]), KeyOf(rows[i + 1]))
  }

  /** The order is a strict total one, and kinds come first. */
  lemma KeyOrder(a: Key, b: Key, c: Key)
    ensures !KeyLess(a, a) && (a == b || KeyLess(a, b) || KeyLess(b, a))
    ensures KeyLess(a, b) && KeyLess(b, c) ==> KeyLess(a, c)
    ensures a.0 != b.0 ==> (KeyLess(a, b) <==> LexLess(KindName(a.0), KindName(b.0)))
  {
    hide LexLess, KindName;
    LexIrreflexive(KindName(a.0));
    LexIrreflexive(a.1);
    KindOrder(a.0, b.0);
    LexTotal(a.1, b.1);
    if KeyLess(a, b) && KeyLess(b, c) {
      if LexLess(KindName(a.0), KindName(b.0)) && LexLess(KindName(b.0), KindName(c.0)) {
        LexTransitive(KindName(a.0), KindName(b.0), KindName(c.0));
      } else if a.0 == b.0 && b.0 == c.0 {
        if LexLess(a.1, b.1) && LexLess(b.1, c.1) {
          LexTransitive(a.1, b.1, c.1);
        }
      }
    }
  }

  lemma KindOrder(k: Kind, l: Kind)
    ensures k == l || LexLess(KindName(k), KindName(l)) || LexLess(KindName(l), KindName(k))
  {
    hide LexLess, KindName;
    LexTotal(KindName(k), KindName(l));
    KindNamesExactly(k);
    KindNamesExactly(l);
  }

  /** MAIN: ascending records ascend altogether, so no two are of the same feature. */
  lemma {:induction false} AscendingAll(rows: seq<Record>, i: nat, j: nat)
    requires Ascending(rows) && i < j < |rows|
    ensures KeyLess(KeyOf(rows[i]), KeyOf(rows[j])) && KeyOf(rows[i]) != KeyOf(rows[j])
    decreases j - i
  {
    hide KeyLess;
    assert KeyLess(KeyOf(rows[i]), KeyOf(rows[i + 1]));
    if i + 1 < j {
      AscendingAll(rows, i + 1, j);
    }
    KeyOrder(KeyOf(rows[i]), KeyOf(rows[i + 1]), KeyOf(rows[j]));
  }

  // ----- lines

  const FEATURE_KIND: Str := Ascii("feature_kind")
  const NORMALIZED_VALUE: Str := Ascii("normalized_value")
  const OCCURRENCE_COUNT: Str := Ascii("occurrence_count")

  function TextMember(key: Str, value: Str): Str {
    C.DumpString(key) + [J.COLON] + C.DumpString(value)
  }

  function CountMember(n: nat): Str {
    C.DumpString(OCCURRENCE_COUNT) + [J.COLON] + C.Digits(n)
  }

  /** `_canonical_json(record)`. */
  function RecordText(r: Record): Str
    requires r.count >= 1
  {
    [J.OPEN_BRACE] + TextMember(FEATURE_KIND, KindName(r.kind)) + [J.COMMA]
    + TextMember(NORMALIZED_VALUE, r.value) + [J.COMMA] + CountMember(r.count) + [J.CLOSE_BRACE]
  }

  /** The members of a printed record. */
  function RecordMembers(r: Record): seq<(Str, J.JValue)> {
    [(FEATURE_KIND, J.JString(KindName(r.kind))), (NORMALIZED_VALUE, J.JString(r.value)),
     (OCCURRENCE_COUNT, J.JInt(r.count))]
  }

  /** The record as a JSON object without white space, its strings in the shortest way. */
  function RecordTree(r: Record): T.Tree
    requires r.count >= 1
  {
    T.Obj([], T.Pair([], G.DumpPieces(FEATURE_KIND), [], [], T.Quoted(G.DumpPieces(KindName(r.kind))), [],
              T.Pair([], G.DumpPieces(NORMALIZED_VALUE), [], [], T.Quoted(G.DumpPieces(r.value)), [],
              T.Pair([], G.DumpPieces(OCCURRENCE_COUNT), [], [], T.Num(T.Number(false, r.count, [], [], [])), [], T.NoPair))))
  }

  lemma StringIsDump(s: Str)
    ensures G.ValidPieces(G.DumpPieces(s)) && G.PiecesValue(G.DumpPieces(s)) == s
    ensures T.StringText(G.DumpPieces(s)) == C.DumpString(s)
  {
    hide G.DumpPieces;
    G.DumpIsPieces(s);
    assert [J.QUOTE] + (C.EscapeText(s) + [J.QUOTE]) == C.DumpString(s);
  }

  lemma NumberIsDigits(n: nat)
    ensures T.NumberText(T.Number(false, n, [], [], [])) == C.Digits(n) && T.ValidNumber(T.Number(false, n, [], [], []))
  {
    hide C.Digits;
    assert [] + C.Digits(n) + [] + ([] + []) == C.Digits(n);
  }

  /** MAIN: the canonical text of a record is that object's, its keys in ascending order. */
  lemma RecordIsTree(r: Record)
    requires r.count >= 1
    ensures T.ValidTree(RecordTree(r)) && T.TreeText(RecordTree(r)) == RecordText(r)
    ensures T.ValidPairs(RecordTree(r).members) && T.PairValues(RecordTree(r).members) == RecordMembers(r)
    ensures LexLess(FEATURE_KIND, NORMALIZED_VALUE) && LexLess(NORMALIZED_VALUE, OCCURRENCE_COUNT)
  {
    hide C.DumpString, G.DumpPieces, G.PiecesValue, T.StringText, T.NumberText, T.ValidNumber, C.Digits, G.ValidPieces, KindName,
         T.PairsText, T.ValidPairs, T.PairValues;
    StringIsDump(FEATURE_KIND);
    StringIsDump(NORMALIZED_VALUE);
    StringIsDump(OCCURRENCE_COUNT);
    StringIsDump(KindName(r.kind));
    StringIsDump(r.value);
    NumberIsDigits(r.count);
    KeysAscend();
    var third := T.Pair([], G.DumpPieces(OCCURRENCE_COUNT), [], [], T.Num(T.Number(false, r.count, [], [], [])), [], T.NoPair);
    var second := T.Pair([], G.DumpPieces(NORMALIZED_VALUE), [], [], T.Quoted(G.DumpPieces(r.value)), [], third);
    LastPair(OCCURRENCE_COUNT, T.Num(T.Number(false, r.count, [], [], [])), C.Digits(r.count));
    NextPair(NORMALIZED_VALUE, T.Quoted(G.DumpPieces(r.value)), C.DumpString(r.value), third);
    NextPair(FEATURE_KIND, T.Quoted(G.DumpPieces(KindName(r.kind))), C.DumpString(KindName(r.kind)), second);
    ObjectOf(r, second, third);
  }

  lemma KeysAscend()
    ensures LexLess(FEATURE_KIND, NORMALIZED_VALUE) && LexLess(NORMALIZED_VALUE, OCCURRENCE_COUNT)
  {
    assert FEATURE_KIND[0] == 'f' as int && NORMALIZED_VALUE[0] == 'n' as int && OCCURRENCE_COUNT[0] == 'o' as int;
  }

  lemma LastPair(key: Str, v: T.Tree, text: Str)
    requires T.ValidTree(v) && T.TreeText(v) == text
    ensures var p := T.Pair([], G.DumpPieces(key), [], [], v, [], T.NoPair);
            && T.ValidPairs(p) && T.PairsText(p) == C.DumpString(key) + [J.COLON] + text
            && T.PairValues(p) == [(key, T.TreeValue(v))]
  {
    hide T.TreeText, T.ValidTree, T.TreeValue, T.StringText, C.DumpString, G.DumpPieces, G.PiecesValue;
    StringIsDump(key);
    NoGap();
    var k := C.DumpString(key);
    assert [] + (k + ([] + ([J.COLON] + ([] + (text + ([] + [])))))) == k + [J.COLON] + text;
  }

  lemma NoGap()
    ensures T.Gap([]) && T.ValidPairs(T.NoPair)
  {
  }

  lemma NextPair(key: Str, v: T.Tree, text: Str, tail: T.Pairs)
    requires T.ValidTree(v) && T.TreeText(v) == text && tail.Pair? && T.ValidPairs(tail)
    ensures var p := T.Pair([], G.DumpPieces(key), [], [], v, [], tail);
            && T.ValidPairs(p) && T.PairsText(p) == C.DumpString(key) + [J.COLON] + text + [J.COMMA] + T.PairsText(tail)
            && T.PairValues(p) == [(key, T.TreeValue(v))] + T.PairValues(tail)
  {
    hide T.TreeText, T.ValidTree, T.TreeValue, T.StringText, C.DumpString, G.DumpPieces, G.PiecesValue;
    StringIsDump(key);
    NoGap();
    var k, rest := C.DumpString(key), T.PairsText(tail);
    assert [] + (k + ([] + ([J.COLON] + ([] + (text + ([] + ([J.COMMA] + rest))))))) == k + [J.COLON] + text + [J.COMMA] + rest;
  }

  lemma ObjectOf(r: Record, second: T.Pairs, third: T.Pairs)
    requires r.count >= 1 && T.ValidPairs(third) && T.ValidPairs(second)
    requires T.PairsText(third) == CountMember(r.count)
    requires T.PairsText(second) == TextMember(NORMALIZED_VALUE, r.value) + [J.COMMA] + T.PairsText(third)
    requires RecordTree(r).members.tail == second && T.ValidPairs(RecordTree(r).members)
    requires T.PairsText(RecordTree(r).members) == TextMember(FEATURE_KIND, KindName(r.kind)) + [J.COMMA] + T.PairsText(second)
    ensures T.ValidTree(RecordTree(r)) && T.TreeText(RecordTree(r)) == RecordText(r)
  {
    hide T.PairsText, T.ValidPairs, TextMember, CountMember, KindName, G.DumpPieces;
    var a, b, c := TextMember(FEATURE_KIND, KindName(r.kind)), TextMember(NORMALIZED_VALUE, r.value), CountMember(r.count);
    assert [J.OPEN_BRACE] + ([] + (a + [J.COMMA] + (b + [J.COMMA] + c) + [J.CLOSE_BRACE]))
           == [J.OPEN_BRACE] + a + [J.COMMA] + b + [J.COMMA] + c + [J.CLOSE_BRACE];
  }

  /** One line of records.jsonl. */
  function LineBytes(r: Record): Bytes
    requires r.count >= 1 && Utf8.Encodable(r.value)
  {
    TextIsEncodable(r);
    Utf8.Encode(RecordText(r)) + [LINE_FEED]
  }

  lemma {:induction false} EscapeIsEncodable(s: Str)
    requires Utf8.Encodable(s)
    ensures Utf8.Encodable(C.EscapeText(s))
  {
    if s != [] {
      assert Utf8.Scalar(s[0]);
      EscapeIsEncodable(s[1..]);
      assert Utf8.Encodable(C.EscapeChar(s[0]));
    }
  }

  lemma AsciiIsEncodable(s: Str)
    requires forall i :: 0 <= i < |s| ==> 0 <= s[i] < 128
    ensures Utf8.Encodable(s)
  {
  }

  lemma TextIsEncodable(r: Record)
    requires r.count >= 1 && Utf8.Encodable(r.value)
    ensures Utf8.Encodable(RecordText(r)) && LINE_FEED !in RecordText(r)
  {
    hide TextMember, CountMember, Utf8.Encodable;
    NamesAreAscii(r.kind);
    AsciiIsEncodable(KindName(r.kind));
    var kind, value, count := TextMember(FEATURE_KIND, KindName(r.kind)), TextMember(NORMALIZED_VALUE, r.value), CountMember(r.count);
    MemberIsPlain(FEATURE_KIND, KindName(r.kind));
    MemberIsPlain(NORMALIZED_VALUE, r.value);
    CountIsPlain(r.count);
    PunctuationIsPlain();
    PlainConcat([J.OPEN_BRACE], kind);
    PlainConcat([J.OPEN_BRACE] + kind, [J.COMMA]);
    PlainConcat([J.OPEN_BRACE] + kind + [J.COMMA], value);
    PlainConcat([J.OPEN_BRACE] + kind + [J.COMMA] + value, [J.COMMA]);
    PlainConcat([J.OPEN_BRACE] + kind + [J.COMMA] + value + [J.COMMA], count);
    PlainConcat([J.OPEN_BRACE] + kind + [J.COMMA] + value + [J.COMMA] + count, [J.CLOSE_BRACE]);
  }

  /** Text that UTF-8 encodes without a line break. */
  predicate Plain(s: Str) {
    Utf8.Encodable(s) && LINE_FEED !in s
  }

  lemma PlainConcat(a: Str, b: Str)
    requires Plain(a) && Plain(b)
    ensures Plain(a + b)
  {
  }

  lemma PunctuationIsPlain()
    ensures Plain([J.OPEN_BRACE]) && Plain([J.CLOSE_BRACE]) && Plain([J.COMMA]) && Plain([J.COLON]) && Plain([J.QUOTE])
  {
  }

  lemma DumpIsPlain(s: Str)
    requires Utf8.Encodable(s)
    ensures Plain(C.DumpString(s))
  {
    hide C.EscapeText, Utf8.Encodable;
    EscapeIsEncodable(s);
    C.EscapedHasNoBreak(s);
    PunctuationIsPlain();
    PlainConcat([J.QUOTE], C.EscapeText(s));
    PlainConcat([J.QUOTE] + C.EscapeText(s), [J.QUOTE]);
  }

  lemma MemberIsPlain(key: Str, value: Str)
    requires forall i :: 0 <= i < |key| ==> 0 <= key[i] < 128
    requires Utf8.Encodable(value)
    ensures Plain(TextMember(key, value))
  {
    hide C.DumpString, Utf8.Encodable;
    AsciiIsEncodable(key);
    DumpIsPlain(key);
    DumpIsPlain(value);
    PunctuationIsPlain();
    PlainConcat(C.DumpString(key), [J.COLON]);
    PlainConcat(C.DumpString(key) + [J.COLON], C.DumpString(value));
  }

  lemma DigitsArePlain(n: nat)
    ensures Plain(C.Digits(n))
  {
    hide C.Digits;
  }

  lemma CountIsPlain(n: nat)
    ensures Plain(CountMember(n))
  {
    hide C.DumpString, C.Digits, Utf8.Encodable;
    NamesAreAscii(KString);
    AsciiIsEncodable(OCCURRENCE_COUNT);
    DumpIsPlain(OCCURRENCE_COUNT);
    DigitsArePlain(n);
    PunctuationIsPlain();
    PlainConcat(C.DumpString(OCCURRENCE_COUNT), [J.COLON]);
    PlainConcat(C.DumpString(OCCURRENCE_COUNT) + [J.COLON], C.Digits(n));
  }

  lemma NamesAreAscii(k: Kind)
    ensures forall i :: 0 <= i < |KindName(k)| ==> 0 <= KindName(k)[i] < 128
    ensures forall i :: 0 <= i < |FEATURE_KIND| ==> 0 <= FEATURE_KIND[i] < 128
    ensures forall i :: 0 <= i < |NORMALIZED_VALUE| ==> 0 <= NORMALIZED_VALUE[i] < 128
    ensures forall i :: 0 <= i < |OCCURRENCE_COUNT| ==> 0 <= OCCURRENCE_COUNT[i] < 128
  {
  }

  // ----- reading a line back

  function KeySet(ms: seq<(Str, J.JValue)>): set<Str> {
    if ms == [] then {} else KeySet(ms[..|ms| - 1]) + {ms[|ms| - 1].0}
  }

  /** The value a `dict` keeps for a key: the last one. */
  function LastValue(ms: seq<(Str, J.JValue)>, key: Str): J.JValue
    requires key in KeySet(ms)
  {
    if ms[|ms| - 1].0 == key then ms[|ms| - 1].1 else LastValue(ms[..|ms| - 1], key)
  }

  function KindNamed(name: Str): Option<Kind> {
    if name == KindName(KString) then Some(KString)
    else if name == KindName(KOpcode) then Some(KOpcode)
    else if name == KindName(KImphash) then Some(KImphash)
    else if name == KindName(KExport) then Some(KExport)
    else None
  }

  /** The checks of `verify_stage` on one line; None is a refused file. */
  function VerifyLine(env: Env, raw: Bytes): (r: Option<Record>)
    ensures r.Some? ==> r.value.count >= 1 && Utf8.Encodable(r.value.value)
  {
    match B.LoadsBytes(raw)
    case None => None
    case Some(ms) =>
      if KeySet(ms) != {FEATURE_KIND, NORMALIZED_VALUE, OCCURRENCE_COUNT} then None
      else
        var kind, value := LastValue(ms, FEATURE_KIND), LastValue(ms, NORMALIZED_VALUE);
        if !kind.JString? || !value.JString? then None
        else CheckRecord(env, raw, kind.s, value.s, LastValue(ms, OCCURRENCE_COUNT))
  }

  function CheckRecord(env: Env, raw: Bytes, name: Str, value: Str, count: J.JValue): (r: Option<Record>)
    ensures r.Some? ==> r.value.count >= 1 && Utf8.Encodable(r.value.value)
  {
    match KindNamed(name)
    case None => None
    case Some(kind) =>
      if !Normalized(env, kind, value) || !JS.ValidCount(count) || !Utf8.Encodable(value) then None
      else
        var r := Record(kind, value, count.n);
        if raw == LineBytes(r) then Some(r) else None
  }

  lemma KindsRead(r: Record)
    ensures KindNamed(KindName(r.kind)) == Some(r.kind)
    ensures FEATURE_KIND != NORMALIZED_VALUE && NORMALIZED_VALUE != OCCURRENCE_COUNT && FEATURE_KIND != OCCURRENCE_COUNT
  {
    assert |FEATURE_KIND| == 12 && |NORMALIZED_VALUE| == 16 && |OCCURRENCE_COUNT| == 16;
    assert NORMALIZED_VALUE[0] != OCCURRENCE_COUNT[0];
    assert |KindName(KString)| == |KindName(KExport)| == 6 && KindName(KString)[0] != KindName(KExport)[0];
    assert |KindName(KOpcode)| == 17 && |KindName(KImphash)| == 7;
  }

  /** Scanning a printed record gives its members. */
  lemma RecordScans(r: Record)
    requires r.count >= 1
    ensures J.LoadsObject(RecordText(r) + [LINE_FEED]) == Some(RecordMembers(r))
  {
    hide RecordText, T.ValidTree, T.TreeText, J.LoadsObject, G.DumpPieces, RecordMembers;
    RecordIsTree(r);
    var t := RecordText(r) + [LINE_FEED];
    assert [] + (RecordText(r) + [LINE_FEED]) == t;
    assert T.Gap([LINE_FEED]);
    T.ObjectTextLoads(t, [], [], RecordTree(r).members, [LINE_FEED]);
  }

  lemma LineLoads(r: Record)
    requires r.count >= 1 && Utf8.Encodable(r.value)
    ensures B.LoadsBytes(LineBytes(r)) == Some(RecordMembers(r))
  {
    hide RecordText, J.LoadsObject, RecordMembers, B.LoadsBytes;
    TextIsEncodable(r);
    var t := RecordText(r) + [LINE_FEED];
    EncodeLast(RecordText(r));
    RecordScans(r);
    B.EncodingsLoadAlike(B.Eight, t);
  }

  lemma {:induction false} EncodeLast(s: Str)
    requires Utf8.Encodable(s)
    ensures Utf8.Encodable(s + [LINE_FEED])
    ensures Utf8.Encode(s + [LINE_FEED]) == Utf8.Encode(s) + [LINE_FEED]
  {
    var t := s + [LINE_FEED];
    if s == [] {
      assert Utf8.EncodeChar(LINE_FEED) == [LINE_FEED] && t[1..] == [];
    } else {
      EncodeLast(s[1..]);
      assert t[1..] == s[1..] + [LINE_FEED];
    }
  }

  lemma MembersRead(r: Record)
    ensures var ms := RecordMembers(r);
            && KeySet(ms) == {FEATURE_KIND, NORMALIZED_VALUE, OCCURRENCE_COUNT}
            && LastValue(ms, FEATURE_KIND) == J.JString(KindName(r.kind))
            && LastValue(ms, NORMALIZED_VALUE) == J.JString(r.value)
            && LastValue(ms, OCCURRENCE_COUNT) == J.JInt(r.count)
  {
    KindsRead(r);
    hide KindName;
    var ms := RecordMembers(r);
    assert ms[..2][..1][..0] == [];
    assert ms[..2][1] == ms[1] && ms[..2][..1][0] == ms[0];
    assert KeySet(ms[..2][..1]) == {FEATURE_KIND};
    assert KeySet(ms[..2]) == {FEATURE_KIND, NORMALIZED_VALUE};
    assert LastValue(ms[..2][..1], FEATURE_KIND) == ms[0].1;
    assert LastValue(ms[..2], FEATURE_KIND) == ms[0].1;
    assert LastValue(ms[..2], NORMALIZED_VALUE) == ms[1].1;
  }

  predicate GoodRecord(env: Env, r: Record) {
    Normalized(env, r.kind, r.value) && 1 <= r.count <= JS.MAX_SQLITE_COUNT && Utf8.Encodable(r.value)
  }

  /** A printed record is accepted exactly when it is normalised and its count is in range. */
  lemma PrintedLineVerifies(env: Env, r: Record)
    requires r.count >= 1 && Utf8.Encodable(r.value)
    ensures VerifyLine(env, LineBytes(r)) == if GoodRecord(env, r) then Some(r) else None
  {
    hide LineBytes, Normalized, RecordMembers, KindName, KindNamed, KeySet, LastValue;
    LineLoads(r);
    MembersRead(r);
    KindsRead(r);
  }

  /** And nothing but printed good records is accepted. */
  lemma VerifiedLineIsPrinted(env: Env, raw: Bytes)
    requires VerifyLine(env, raw).Some?
    ensures var r := VerifyLine(env, raw).value; GoodRecord(env, r) && raw == LineBytes(r)
  {
    hide LineBytes, Normalized, B.LoadsBytes, LastValue, KeySet;
  }

  // ----- the file

  /** `for raw_line in handle`: cut after every line feed. */
  function Lines(file: Bytes): seq<Bytes> {
    if file == [] then []
    else
      var rest := Lines(file[1..]);
      if file[0] == LINE_FEED || rest == [] then [[file[0]]] + rest
      else [[file[0]] + rest[0]] + rest[1..]
  }

  lemma {:induction false} LinesJoin(file: Bytes)
    ensures Concat(Lines(file)) == file
  {
    if file != [] {
      LinesJoin(file[1..]);
      var rest := Lines(file[1..]);
      assert [file[0]] + file[1..] == file;
      if file[0] == LINE_FEED || rest == [] {
        assert Lines(file)[1..] == rest;
      } else {
        assert Lines(file)[1..] == rest[1..];
        assert [file[0]] + rest[0] + Concat(rest[1..]) == [file[0]] + (rest[0] + Concat(rest[1..]));
      }
    }
  }

  lemma {:induction false} LinesFirst(line: Bytes, rest: Bytes)
    requires LINE_FEED !in line
    ensures Lines(line + [LINE_FEED] + rest) == [line + [LINE_FEED]] + Lines(rest)
  {
    var f := line + [LINE_FEED] + rest;
    if line == [] {
      assert f[1..] == rest && line + [LINE_FEED] == [LINE_FEED];
    } else {
      assert line[0] in line;
      assert f[1..] == line[1..] + [LINE_FEED] + rest;
      LinesFirst(line[1..], rest);
      assert [f[0]] + (line[1..] + [LINE_FEED]) == line + [LINE_FEED];
    }
  }

  lemma {:induction false} EncodedHasNoBreak(s: Str)
    requires Utf8.Encodable(s) && LINE_FEED !in s
    ensures LINE_FEED !in Utf8.Encode(s)
  {
    if s != [] {
      EncodedHasNoBreak(s[1..]);
      assert s[0] in s;
      assert LINE_FEED !in Utf8.EncodeChar(s[0]);
    }
  }

  predicate Printable(rows: seq<Record>) {
    forall i :: 0 <= i < |rows| ==> rows[i].count >= 1 && Utf8.Encodable(rows[i].value)
  }

  /** records.jsonl for these records. */
  function Print(rows: seq<Record>): Bytes
    requires Printable(rows)
  {
    if rows == [] then [] else LineBytes(rows[0]) + Print(rows[1..])
  }

  function LinesOf(rows: seq<Record>): (r: seq<Bytes>)
    requires Printable(rows)
    ensures |r| == |rows| && forall i :: 0 <= i < |rows| ==> r[i] == LineBytes(rows[i])
  {
    seq(|rows|, i requires 0 <= i < |rows| => LineBytes(rows[i]))
  }

  lemma LineFirst(r: Record, rest: Bytes)
    requires r.count >= 1 && Utf8.Encodable(r.value)
    ensures Lines(LineBytes(r) + rest) == [LineBytes(r)] + Lines(rest)
  {
    hide RecordText, Utf8.Encode, Utf8.Encodable, Lines;
    TextIsEncodable(r);
    EncodedHasNoBreak(RecordText(r));
    LinesFirst(Utf8.Encode(RecordText(r)), rest);
  }

  lemma {:induction false} PrintedLines(rows: seq<Record>)
    requires Printable(rows)
    ensures Lines(Print(rows)) == LinesOf(rows) && Concat(LinesOf(rows)) == Print(rows)
  {
    hide LineBytes, Utf8.Encodable, Lines;
    NoLines();
    if rows != [] {
      PrintedLines(rows[1..]);
      LineFirst(rows[0], Print(rows[1..]));
      assert LinesOf(rows)[1..] == LinesOf(rows[1..]);
    }
  }

  lemma NoLines()
    ensures Lines([]) == []
  {
  }

  function CountSum(rows: seq<Record>): int {
    if rows == [] then 0 else CountSum(rows[..|rows| - 1]) + rows[|rows| - 1].count
  }

  /** What the manifest says of the file. */
  datatype Manifest = Manifest(sha: Digest, recordCount: int, occurrenceSum: int)

  function ManifestOf(env: Env, rows: seq<Record>): Manifest
    requires Printable(rows)
  {
    Manifest(env.sha256(Print(rows)), |rows|, CountSum(rows))
  }

  lemma PrintStep(rows: seq<Record>, i: nat, file: Bytes)
    requires Printable(rows) && i < |rows|
    ensures file + Print(rows[i..]) == file + LineBytes(rows[i]) + Print(rows[i + 1..])
  {
    hide LineBytes;
    assert rows[i..][1..] == rows[i + 1..];
  }

  lemma PrintNothing(rows: seq<Record>)
    requires Printable(rows)
    ensures Print(rows[|rows|..]) == [] && [] + Print(rows[0..]) == Print(rows)
  {
    hide LineBytes, Utf8.Encodable;
    assert rows[0..] == rows;
  }

  /** `_write_records` over the cursor's rows. */
  method WriteRecords(env: Env, rows: seq<Record>) returns (file: Bytes, m: Manifest)
    requires Printable(rows)
    ensures file == Print(rows) && m == ManifestOf(env, rows)
  {
    hide LineBytes, Print, Utf8.Encodable;
    file := [];
    PrintNothing(rows);
    var recordCount, occurrenceSum := 0, 0;
    for i := 0 to |rows|
      invariant file + Print(rows[i..]) == Print(rows)
      invariant recordCount == i && occurrenceSum == CountSum(rows[..i])
    {
      PrintStep(rows, i, file);
      file := file + LineBytes(rows[i]);
      recordCount, occurrenceSum := recordCount + 1, occurrenceSum + rows[i].count;
      assert rows[..i + 1][..i] == rows[..i];
    }
    assert rows[|rows|..] == [] && rows[..|rows|] == rows;
    m := Manifest(env.sha256(file), recordCount, occurrenceSum);
  }

  /** A stage file: printed good records in strictly ascending order. */
  predicate StageRecords(env: Env, rows: seq<Record>) {
    (forall i :: 0 <= i < |rows| ==> GoodRecord(env, rows[i])) && Ascending(rows)
  }

  ghost predicate IsStage(env: Env, file: Bytes, m: Manifest, rows: seq<Record>) {
    StageRecords(env, rows) && Printable(rows) && file == Print(rows) && m == ManifestOf(env, rows)
  }

  /** MAIN: `verify_stage` accepts a file and a manifest if and only if the file is the canonical
      print of normalised, positive, strictly sorted (so distinct) records, and the manifest
      has their digest, number and sum. */
  method VerifyStage(env: Env, file: Bytes, m: Manifest) returns (ok: bool)
    ensures ok <==> exists rows :: IsStage(env, file, m, rows)
  {
    hide VerifyLine, LineBytes, Normalized, GoodRecord, Print, Lines, KeyLess;
    var lines := Lines(file);
    var rows: seq<Record> := [];
    for i := 0 to |lines|
      invariant |rows| == i && Printable(rows) && StageRecords(env, rows)
      invariant forall j :: 0 <= j < i ==> lines[j] == LineBytes(rows[j])
    {
      var r := VerifyLine(env, lines[i]);
      if r == None {
        BadLine(env, file, m, i);
        return false;
      }
      VerifiedLineIsPrinted(env, lines[i]);
      if i > 0 && !KeyLess(KeyOf(rows[i - 1]), KeyOf(r.value)) {
        BadOrder(env, file, m, i, rows[i - 1], r.value);
        return false;
      }
      rows := rows + [r.value];
    }
    LinesJoin(file);
    PrintedLines(rows);
    assert lines == LinesOf(rows);
    ok := m == Manifest(env.sha256(file), |rows|, CountSum(rows));
    if ok {
      assert IsStage(env, file, m, rows);
    } else {
      forall other ensures !IsStage(env, file, m, other) {
        if IsStage(env, file, m, other) {
          PrintedLines(other);
          SameRecords(rows, other);
        }
      }
    }
  }

  /** Equal lines are of equal records. */
  lemma SameRecords(a: seq<Record>, b: seq<Record>)
    requires Printable(a) && Printable(b) && LinesOf(a) == LinesOf(b)
    ensures a == b
  {
    hide LineBytes;
    forall i | 0 <= i < |a| ensures i < |b| && a[i] == b[i] {
      assert LinesOf(a)[i] == LinesOf(b)[i];
      LineInjective(a[i], b[i]);
    }
  }

  lemma LineInjective(a: Record, b: Record)
    requires a.count >= 1 && Utf8.Encodable(a.value) && b.count >= 1 && Utf8.Encodable(b.value)
    requires LineBytes(a) == LineBytes(b)
    ensures a == b
  {
    hide LineBytes, RecordMembers;
    LineLoads(a);
    LineLoads(b);
    MembersRead(a);
    MembersRead(b);
    KindsRead(a);
    KindsRead(b);
  }

  lemma BadLine(env: Env, file: Bytes, m: Manifest, i: nat)
    requires i < |Lines(file)| && VerifyLine(env, Lines(file)[i]) == None
    ensures forall rows :: !IsStage(env, file, m, rows)
  {
    hide VerifyLine, LineBytes, GoodRecord, Lines;
    forall rows ensures !IsStage(env, file, m, rows) {
      if IsStage(env, file, m, rows) {
        PrintedLines(rows);
        PrintedLineVerifies(env, rows[i]);
      }
    }
  }

  lemma BadOrder(env: Env, file: Bytes, m: Manifest, i: nat, a: Record, b: Record)
    requires 0 < i < |Lines(file)|
    requires a.count >= 1 && Utf8.Encodable(a.value) && Lines(file)[i - 1] == LineBytes(a)
    requires b.count >= 1 && Utf8.Encodable(b.value) && Lines(file)[i] == LineBytes(b)
    requires !KeyLess(KeyOf(a), KeyOf(b))
    ensures forall rows :: !IsStage(env, file, m, rows)
  {
    hide LineBytes, GoodRecord, Lines;
    forall rows ensures !IsStage(env, file, m, rows) {
      if IsStage(env, file, m, rows) {
        PrintedLines(rows);
        LineInjective(rows[i - 1], a);
        LineInjective(rows[i], b);
      }
    }
  }

  // ----- what was built is accepted

  predicate GoodRow(env: Env, r: Row<Key>) {
    GoodRecord(env, Record(r.key.0, r.key.1, r.count))
  }

  lemma {:induction false} RowsAreGood(env: Env, kind: Kind, items: seq<JS.Item>)
    requires UnicodeLaws(env)
    ensures forall i :: 0 <= i < |RowsOf(env, kind, items)| ==> GoodRow(env, RowsOf(env, kind, items)[i])
  {
    hide UnicodeLaws;
    if items != [] {
      var last := |items| - 1;
      RowsAreGood(env, kind, items[..last]);
      if ReadEntry(env, kind, items[last]).Good? {
        NormalizedOnce(env, kind, items[last].0);
      }
    }
  }

  lemma {:induction false} AllRowsAreGood(env: Env, max: int, files: seq<File>)
    requires UnicodeLaws(env) && AllAccepted(env, max, files)
    ensures forall i :: 0 <= i < |AllRows(env, max, files)| ==> GoodRow(env, AllRows(env, max, files)[i])
  {
    hide UnicodeLaws, GoodRow, LoadSource, Readable;
    if files != [] {
      var s := LoadSource(max, files[|files| - 1]).value;
      AllRowsAreGood(env, max, files[..|files| - 1]);
      RowsAreGood(env, s.kind, s.items);
    }
  }

  lemma {:induction false} KeysAreGood(env: Env, rows: seq<Row<Key>>, k: Key)
    requires forall i :: 0 <= i < |rows| ==> GoodRow(env, rows[i])
    requires k in Upserts(map[], rows)
    ensures Normalized(env, k.0, k.1) && Utf8.Encodable(k.1)
  {
    hide Normalized;
    if rows != [] && k != rows[|rows| - 1].key {
      KeysAreGood(env, rows[..|rows| - 1], k);
    }
  }

  lemma CursorRows(env: Env, all: seq<Row<Key>>, t: Table<Key>, rounded: Key -> int, rows: seq<Record>)
    requires forall i :: 0 <= i < |all| ==> GoodRow(env, all[i])
    requires t == Upserts(map[], all) && Cursor(t, rounded, rows)
    requires forall k :: rounded(k) > JS.MAX_SQLITE_COUNT
    ensures Printable(rows) && Ascending(rows)
    ensures forall i :: 0 <= i < |rows| ==>
              && Normalized(env, rows[i].kind, rows[i].value)
              && (rows[i].count <= JS.MAX_SQLITE_COUNT <==> KeySum(all, KeyOf(rows[i])) <= JS.MAX_SQLITE_COUNT)
  {
    hide Upserts, KeySum, Normalized, RowLess, KeyLess;
    forall i | 0 <= i < |rows|
      ensures rows[i].count >= 1 && Normalized(env, rows[i].kind, rows[i].value)
      ensures rows[i].count <= JS.MAX_SQLITE_COUNT <==> KeySum(all, KeyOf(rows[i])) <= JS.MAX_SQLITE_COUNT
    {
      var k := KeyOf(rows[i]);
      UpsertsAreSums(all, k);
      KeysAreGood(env, all, k);
    }
    forall i | 0 <= i < |rows| - 1 ensures KeyLess(KeyOf(rows[i]), KeyOf(rows[i + 1])) {
      SameOrder(KeyOf(rows[i]), KeyOf(rows[i + 1]));
    }
  }

  lemma OnlyItsRecords(env: Env, rows: seq<Record>, rs: seq<Record>)
    requires Printable(rows) && IsStage(env, Print(rows), ManifestOf(env, rows), rs)
    ensures rs == rows
    ensures forall i :: 0 <= i < |rows| ==> rows[i].count <= JS.MAX_SQLITE_COUNT
  {
    hide Print, LinesOf, Lines, Normalized, CountSum;
    PrintedLines(rs);
    PrintedLines(rows);
    SameRecords(rows, rs);
  }

  /** MAIN: whatever was built passes `verify_stage` exactly when no feature's count leaves the
      SQLite integers (a REAL sum is printed as an integer that the verifier refuses). */
  lemma BuiltStageVerifies(env: Env, max: int, files: seq<File>, rounded: Key -> int, rows: seq<Record>)
    requires UnicodeLaws(env) && AllAccepted(env, max, files)
    requires Cursor(Upserts(map[], AllRows(env, max, files)), rounded, rows)
    requires forall k :: rounded(k) > JS.MAX_SQLITE_COUNT
    ensures Printable(rows)
    ensures (exists rs :: IsStage(env, Print(rows), ManifestOf(env, rows), rs)) <==>
            forall k :: k in Upserts(map[], AllRows(env, max, files)) ==>
                          KeySum(AllRows(env, max, files), k) <= JS.MAX_SQLITE_COUNT
  {
    hide UnicodeLaws, AllAccepted, AllRows, Upserts, KeySum, Print, Normalized, CountSum, RowLess, KeyLess;
    var all := AllRows(env, max, files);
    var t := Upserts(map[], all);
    AllRowsAreGood(env, max, files);
    CursorRows(env, all, t, rounded, rows);
    if forall k :: k in t ==> KeySum(all, k) <= JS.MAX_SQLITE_COUNT {
      assert IsStage(env, Print(rows), ManifestOf(env, rows), rows);
    }
    if rs :| IsStage(env, Print(rows), ManifestOf(env, rows), rs) {
      OnlyItsRecords(env, rows, rs);
      forall k | k in t ensures KeySum(all, k) <= JS.MAX_SQLITE_COUNT {
        var i :| 0 <= i < |rows| && KeyOf(rows[i]) == k;
      }
    }
  }

  // ----- an input that is refused

  /** A file with the one export `a`, counted n times. */
  function OneExport(n: nat): Str {
    [J.OPEN_BRACE] + (C.DumpString([97]) + [J.COLON] + C.Digits(n)) + [J.CLOSE_BRACE]
  }

  lemma OneExportLoads(n: nat)
    ensures J.LoadsObject(OneExport(n)) == Some([([97], J.JInt(n))])
  {
    hide C.DumpString, C.Digits, G.DumpPieces, J.LoadsObject, T.PairValues, T.PairsText;
    var v := T.Num(T.Number(false, n, [], [], []));
    var members := T.Pair([], G.DumpPieces([97]), [], [], v, [], T.NoPair);
    NumberIsDigits(n);
    LastPair([97], v, C.Digits(n));
    G.DumpIsPieces([97]);
    var pair := C.DumpString([97]) + [J.COLON] + C.Digits(n);
    assert [J.OPEN_BRACE] + ([] + (pair + [J.CLOSE_BRACE])) == OneExport(n);
    assert [] + (OneExport(n) + []) == OneExport(n);
    T.ObjectTextLoads(OneExport(n), [], [], members, []);
  }

  lemma OneExportIsPlain(n: nat)
    ensures Utf8.Encodable(OneExport(n))
  {
    hide C.DumpString, C.Digits, Utf8.Encodable;
    AsciiIsEncodable([97]);
    DumpIsPlain([97]);
    DigitsArePlain(n);
    PunctuationIsPlain();
    PlainConcat(C.DumpString([97]), [J.COLON]);
    PlainConcat(C.DumpString([97]) + [J.COLON], C.Digits(n));
    PlainConcat([J.OPEN_BRACE], C.DumpString([97]) + [J.COLON] + C.Digits(n));
    PlainConcat([J.OPEN_BRACE] + (C.DumpString([97]) + [J.COLON] + C.Digits(n)), [J.CLOSE_BRACE]);
  }

  function ExportFile(n: nat): File {
    OneExportIsPlain(n);
    File(KExport, Utf8.Encode(OneExport(n)))
  }

  lemma ExportLoads(env: Env, max: int, n: nat)
    requires env.nfc([97]) == [97] && 1 <= n <= JS.MAX_SQLITE_COUNT && |ExportFile(n).raw| <= max
    ensures LoadSource(max, ExportFile(n)) == Some(Source(KExport, [([97], J.JInt(n))])) && Accepted(env, max, ExportFile(n))
    ensures RowsOf(env, KExport, [([97], J.JInt(n))]) == [Row((KExport, [97]), n)]
  {
    hide OneExport, J.LoadsObject, B.LoadsBytes;
    OneExportIsPlain(n);
    OneExportLoads(n);
    B.EncodingsLoadAlike(B.Eight, OneExport(n));
    B.ObjectStarts(OneExport(n));
    var ms := [([97], J.JInt(n))];
    assert ms[..0] == [];
    assert Collapse(ms) == Put([], [97], J.JInt(n));
    assert ReadEntry(env, KExport, ms[0]) == Entry.Good(Row((KExport, [97]), n));
  }

  /** Two files that each count the export `a`, the largest count and once more: what is built
      from them is refused, since the sum is 2^63. */
  lemma BuiltButRefused(env: Env, max: int, rounded: Key -> int, rows: seq<Record>)
    requires UnicodeLaws(env) && env.nfc([97]) == [97] && forall k :: rounded(k) > JS.MAX_SQLITE_COUNT
    requires |ExportFile(JS.MAX_SQLITE_COUNT).raw| <= max && |ExportFile(1).raw| <= max
    ensures var files := [ExportFile(JS.MAX_SQLITE_COUNT), ExportFile(1)];
            && AllAccepted(env, max, files) && KeySum(AllRows(env, max, files), (KExport, [97])) == 0x8000_0000_0000_0000
            && (Cursor(Upserts(map[], AllRows(env, max, files)), rounded, rows) ==>
                  Printable(rows) && forall rs :: !IsStage(env, Print(rows), ManifestOf(env, rows), rs))
  {
    hide UnicodeLaws, ExportFile, LoadSource, Readable, Cursor, Print, IsStage;
    var a, b, k := ExportFile(JS.MAX_SQLITE_COUNT), ExportFile(1), (KExport, [97]);
    var files := [a, b];
    ExportLoads(env, max, JS.MAX_SQLITE_COUNT);
    ExportLoads(env, max, 1);
    assert files[..1] == [a] && files[..1][..0] == [];
    var first, second := [Row(k, JS.MAX_SQLITE_COUNT)], [Row(k, 1)];
    assert AllRows(env, max, files[..1]) == [] + first;
    var all := AllRows(env, max, files);
    assert all == first + second;
    assert all[..1] == first && first[..0] == [];
    assert KeySum(first, k) == JS.MAX_SQLITE_COUNT;
    AllRowsAreGood(env, max, files);
    UpsertsAreSums(all, k);
    if Cursor(Upserts(map[], all), rounded, rows) {
      BuiltStageVerifies(env, max, files, rounded, rows);
    }
  }

  // ----- the cursor exists

  function Insert(rows: seq<Record>, r: Record): (q: seq<Record>)
    ensures |q| == |rows| + 1
    ensures q[0] == r || (rows != [] && q[0] == rows[0])
  {
    if rows == [] || KeyLess(KeyOf(r), KeyOf(rows[0])) then [r] + rows
    else [rows[0]] + Insert(rows[1..], r)
  }

  lemma KeyTotal(a: Key, b: Key)
    ensures a == b || KeyLess(a, b) || KeyLess(b, a)
  {
    LexTotal(KindName(a.0), KindName(b.0));
    LexTotal(a.1, b.1);
    KindsRead(Record(a.0, [], 0));
    KindsRead(Record(b.0, [], 0));
  }

  lemma {:induction false} InsertAscends(rows: seq<Record>, r: Record)
    requires Ascending(rows)
    requires forall i :: 0 <= i < |rows| ==> KeyOf(rows[i]) != KeyOf(r)
    ensures Ascending(Insert(rows, r))
    ensures forall q :: q in Insert(rows, r) <==> q == r || q in rows
  {
    hide KeyLess;
    if rows != [] && !KeyLess(KeyOf(r), KeyOf(rows[0])) {
      KeyTotal(KeyOf(r), KeyOf(rows[0]));
      assert Ascending(rows[1..]);
      InsertAscends(rows[1..], r);
      var rest := Insert(rows[1..], r);
      assert KeyLess(KeyOf(rows[0]), KeyOf(rest[0]));
      assert rows == [rows[0]] + rows[1..];
    }
  }

  /** SQLite can deliver every table in its order. */
  lemma {:induction false} CursorExists(t: Table<Key>, rounded: Key -> int) returns (rows: seq<Record>)
    requires forall k :: k in t ==> Utf8.Encodable(k.1)
    ensures Cursor(t, rounded, rows)
    decreases |t|
  {
    hide KeyLess, RowLess;
    rows := AscendingRows(t, rounded);
    forall i | 0 <= i < |rows| ensures KeyOf(rows[i]) in t && Utf8.Encodable(rows[i].value) && rows[i].count == CountOf(t, KeyOf(rows[i]), rounded) {
      assert rows[i] in rows;
    }
    forall k | k in t ensures exists i :: 0 <= i < |rows| && KeyOf(rows[i]) == k {
      var r := Record(k.0, k.1, CountOf(t, k, rounded));
      var i :| 0 <= i < |rows| && rows[i] == r;
      assert KeyOf(rows[i]) == k;
    }
    forall i | 0 <= i < |rows| - 1 ensures RowLess(KeyOf(rows[i]), KeyOf(rows[i + 1])) {
      SameOrder(KeyOf(rows[i]), KeyOf(rows[i + 1]));
    }
  }

  lemma {:induction false} AscendingRows(t: Table<Key>, rounded: Key -> int) returns (rows: seq<Record>)
    ensures Ascending(rows)
    ensures forall q :: q in rows <==> KeyOf(q) in t && q.count == CountOf(t, KeyOf(q), rounded)
    decreases |t|
  {
    hide KeyLess;
    if t == map[] {
      rows := [];
    } else {
      var k :| k in t;
      var rest := t - {k};
      var r := Record(k.0, k.1, CountOf(t, k, rounded));
      var before := AscendingRows(rest, rounded);
      forall i | 0 <= i < |before| ensures KeyOf(before[i]) != KeyOf(r) {
        assert before[i] in before;
      }
      InsertAscends(before, r);
      rows := Insert(before, r);
      forall q ensures q in rows <==> KeyOf(q) in t && q.count == CountOf(t, KeyOf(q), rounded) {
        assert KeyOf(q) == k && q.count == r.count ==> q == r;
      }
    }
  }

  // ----- the dict of a source

  /** One more pair of a `dict` display: a known key keeps its place and takes the new value. */
  function Put(d: seq<JS.Item>, key: Str, v: J.JValue): seq<JS.Item> {
    if d == [] then [(key, v)]
    else if d[0].0 == key then [(key, v)] + d[1..]
    else [d[0]] + Put(d[1..], key, v)
  }

  /** The items of the dict that `json.loads` builds. */
  function Collapse(ms: seq<(Str, J.JValue)>): seq<JS.Item> {
    if ms == [] then [] else Put(Collapse(ms[..|ms| - 1]), ms[|ms| - 1].0, ms[|ms| - 1].1)
  }

  /** A source file: its kind, and its decompressed bytes. */
  datatype File = File(kind: Kind, raw: Bytes)

  /** `_read_bounded_json`; None is a refused file. */
  function LoadSource(max: int, f: File): Option<Source> {
    if max < 1 || |f.raw| > max then None
    else
      match B.LoadsBytes(f.raw)
      case None => None
      case Some(ms) => Some(Source(f.kind, Collapse(ms)))
  }

  /** The file loads, and every one of its pairs is usable. */
  predicate Accepted(env: Env, max: int, f: File) {
    LoadSource(max, f).Some? && Readable(env, LoadSource(max, f).value)
  }

  predicate AllAccepted(env: Env, max: int, files: seq<File>) {
    forall i :: 0 <= i < |files| ==> Accepted(env, max, files[i])
  }

  /** The rows of all files, in order. */
  function AllRows(env: Env, max: int, files: seq<File>): seq<Row<Key>>
    requires AllAccepted(env, max, files)
  {
    if files == [] then []
    else
      var s := LoadSource(max, files[|files| - 1]).value;
      AllRows(env, max, files[..|files| - 1]) + RowsOf(env, s.kind, s.items)
  }

  // ----- what the records hold

  ghost predicate CountsFor(env: Env, k: Kind, item: JS.Item, key: Key) {
    k == key.0 && !EmptyMark(k, item.0) && MeansV1(env, k, item.0, key.1)
  }

  /** The counts of the entries of a source that count for the key. */
  ghost function EntrySum(env: Env, k: Kind, items: seq<JS.Item>, key: Key): int {
    if items == [] then 0
    else
      var it := items[|items| - 1];
      EntrySum(env, k, items[..|items| - 1], key) + (if CountsFor(env, k, it, key) && it.1.JInt? then it.1.n else 0)
  }

  ghost function FileSum(env: Env, max: int, files: seq<File>, key: Key): int {
    if files == [] then 0
    else
      var last := |files| - 1;
      FileSum(env, max, files[..last], key)
      + (match LoadSource(max, files[last]) case None => 0 case Some(s) => EntrySum(env, s.kind, s.items, key))
  }

  /** The pair can be read. */
  ghost predicate UsablePair(env: Env, k: Kind, item: JS.Item) {
    && item.1.JInt? && 1 <= item.1.n < 0x8000_0000_0000_0000
    && (EmptyMark(k, item.0) || exists value :: Utf8.Encodable(value) && MeansV1(env, k, item.0, value))
  }

  /** MAIN: an entry is read if and only if its pair is usable, and then to what it counts for. */
  lemma EntryExactly(env: Env, k: Kind, item: JS.Item, key: Key)
    requires Utf8.Encodable(key.1)
    ensures ReadEntry(env, k, item) != Bad <==> UsablePair(env, k, item)
    ensures ReadEntry(env, k, item) != Bad ==>
              (CountsFor(env, k, item, key) <==> ReadEntry(env, k, item) == Good(Row(key, item.1.n)))
  {
    hide NormalizeV1, MeansV1, Utf8.Encodable;
    NormalizeV1Exactly(env, k, item.0, key.1);
    if NormalizeV1(env, k, item.0).Some? {
      NormalizeV1Exactly(env, k, item.0, NormalizeV1(env, k, item.0).value);
    }
    if value :| Utf8.Encodable(value) && MeansV1(env, k, item.0, value) {
      NormalizeV1Exactly(env, k, item.0, value);
    }
  }

  lemma {:induction false} EntriesAreRows(env: Env, k: Kind, items: seq<JS.Item>, key: Key)
    requires Utf8.Encodable(key.1) && forall i :: 0 <= i < |items| ==> ReadEntry(env, k, items[i]) != Bad
    ensures KeySum(RowsOf(env, k, items), key) == EntrySum(env, k, items, key)
  {
    hide ReadEntry, CountsFor, KeySum, UsablePair;
    if items == [] {
      OneRow(Row(key, 1), key);
    } else {
      var last := |items| - 1;
      var e := ReadEntry(env, k, items[last]);
      EntriesAreRows(env, k, items[..last], key);
      EntryExactly(env, k, items[last], key);
      GoodIsCount(env, k, items[last]);
      KeySumAppend(RowsOf(env, k, items[..last]), if e.Good? then [e.r] else [], key);
      OneRow(if e.Good? then e.r else Row(key, 1), key);
    }
  }

  lemma GoodIsCount(env: Env, k: Kind, item: JS.Item)
    ensures ReadEntry(env, k, item) != Bad ==> item.1.JInt?
    ensures ReadEntry(env, k, item).Good? ==> ReadEntry(env, k, item).r.count == item.1.n
  {
    hide NormalizeV1;
  }

  lemma {:induction false} FilesAreRows(env: Env, max: int, files: seq<File>, key: Key)
    requires AllAccepted(env, max, files) && Utf8.Encodable(key.1)
    ensures KeySum(AllRows(env, max, files), key) == FileSum(env, max, files, key)
  {
    hide LoadSource, RowsOf, EntrySum, KeySum, ReadEntry;
    if files == [] {
      OneRow(Row(key, 1), key);
    } else {
      var last := |files| - 1;
      var s := LoadSource(max, files[last]).value;
      FilesAreRows(env, max, files[..last], key);
      EntriesAreRows(env, s.kind, s.items, key);
      KeySumAppend(AllRows(env, max, files[..last]), RowsOf(env, s.kind, s.items), key);
    }
  }

  lemma {:induction false} RowsPositive(env: Env, k: Kind, items: seq<JS.Item>)
    ensures Positive(RowsOf(env, k, items))
  {
    hide ReadEntry;
    if items != [] {
      RowsPositive(env, k, items[..|items| - 1]);
      CountInRange(env, k, items[|items| - 1]);
    }
  }

  lemma CountInRange(env: Env, k: Kind, item: JS.Item)
    ensures ReadEntry(env, k, item).Good? ==> 1 <= ReadEntry(env, k, item).r.count <= JS.MAX_SQLITE_COUNT
  {
  }

  lemma {:induction false} AllRowsPositive(env: Env, max: int, files: seq<File>)
    requires AllAccepted(env, max, files)
    ensures Positive(AllRows(env, max, files))
  {
    hide LoadSource, RowsOf;
    if files != [] {
      var s := LoadSource(max, files[|files| - 1]).value;
      AllRowsPositive(env, max, files[..|files| - 1]);
      RowsPositive(env, s.kind, s.items);
    }
  }

  /** MAIN: the records of a built stage are the keys some entry counts for, each with the sum of
      those entries, as long as that is a SQLite integer. */
  lemma RecordsAreSums(env: Env, max: int, files: seq<File>, rounded: Key -> int, rows: seq<Record>, key: Key)
    requires AllAccepted(env, max, files) && Utf8.Encodable(key.1)
    requires Cursor(Upserts(map[], AllRows(env, max, files)), rounded, rows)
    ensures (exists i :: 0 <= i < |rows| && KeyOf(rows[i]) == key) <==> FileSum(env, max, files, key) > 0
    ensures forall i :: 0 <= i < |rows| && KeyOf(rows[i]) == key && FileSum(env, max, files, key) <= JS.MAX_SQLITE_COUNT
              ==> rows[i].count == FileSum(env, max, files, key)
  {
    hide LoadSource, AllRows, Upserts, KeySum, AllAccepted, FileSum, RowLess;
    FilesAreRows(env, max, files, key);
    AllRowsPositive(env, max, files);
    UpsertsAreSums(AllRows(env, max, files), key);
  }

  predicate Distinct(d: seq<JS.Item>) {
    forall i, j :: 0 <= i < j < |d| ==> d[i].0 != d[j].0
  }

  lemma {:induction false} PutMembers(d: seq<JS.Item>, key: Str, v: J.JValue)
    requires Distinct(d)
    ensures forall x :: x in Put(d, key, v) <==> x == (key, v) || (x in d && x.0 != key)
  {
    if d != [] {
      assert d == [d[0]] + d[1..];
      assert forall x :: x in d[1..] ==> x.0 != d[0].0;
      if d[0].0 != key {
        PutMembers(d[1..], key, v);
      }
    }
  }

  lemma {:induction false} PutDistinct(d: seq<JS.Item>, key: Str, v: J.JValue)
    requires Distinct(d)
    ensures Distinct(Put(d, key, v))
  {
    if d != [] && d[0].0 != key {
      PutDistinct(d[1..], key, v);
      PutMembers(d[1..], key, v);
      var rest := Put(d[1..], key, v);
      forall i | 0 <= i < |rest| ensures rest[i].0 != d[0].0 {
        assert rest[i] in rest;
      }
    }
  }

  /** Duplicate keys of a v1 source collapse to the last count, where the v2 reader adds them. */
  lemma {:induction false} CollapseKeepsLast(ms: seq<(Str, J.JValue)>)
    ensures Distinct(Collapse(ms))
    ensures forall x :: x in Collapse(ms) <==> x.0 in KeySet(ms) && x.1 == LastValue(ms, x.0)
  {
    if ms != [] {
      var last := |ms| - 1;
      CollapseKeepsLast(ms[..last]);
      PutMembers(Collapse(ms[..last]), ms[last].0, ms[last].1);
      PutDistinct(Collapse(ms[..last]), ms[last].0, ms[last].1);
    }
  }

  /** Every key's last value makes a usable pair. */
  ghost predicate KeysUsable(env: Env, k: Kind, ms: seq<(Str, J.JValue)>) {
    forall key :: key in KeySet(ms) ==> UsablePair(env, k, (key, LastValue(ms, key)))
  }

  /** MAIN: a file is accepted if and only if it is within the limit, loads as an object, and of each
      of its keys the last value makes a usable pair. */
  lemma AcceptedExactly(env: Env, max: int, f: File)
    ensures Accepted(env, max, f) <==>
            && 1 <= max && |f.raw| <= max && B.LoadsBytes(f.raw).Some?
            && KeysUsable(env, f.kind, B.LoadsBytes(f.raw).value)
  {
    hide B.LoadsBytes, ReadEntry, KeysUsable, Collapse;
    if B.LoadsBytes(f.raw).Some? {
      PairsRead(env, f.kind, B.LoadsBytes(f.raw).value);
    }
  }

  lemma PairsRead(env: Env, k: Kind, ms: seq<(Str, J.JValue)>)
    ensures Readable(env, Source(k, Collapse(ms))) <==> KeysUsable(env, k, ms)
  {
    hide ReadEntry, UsablePair, KeySet, LastValue, Collapse;
    var d := Collapse(ms);
    CollapseKeepsLast(ms);
    NothingEncodes();
    forall i | 0 <= i < |d|
      ensures d[i].0 in KeySet(ms) && d[i] == (d[i].0, LastValue(ms, d[i].0))
      ensures ReadEntry(env, k, d[i]) != Bad <==> UsablePair(env, k, d[i])
    {
      assert d[i] in d;
      EntryExactly(env, k, d[i], (k, []));
    }
    if Readable(env, Source(k, d)) {
      forall key | key in KeySet(ms) ensures UsablePair(env, k, (key, LastValue(ms, key))) {
        assert (key, LastValue(ms, key)) in d;
        var i :| 0 <= i < |d| && d[i] == (key, LastValue(ms, key));
      }
    }
    if KeysUsable(env, k, ms) {
      forall i | 0 <= i < |d| ensures ReadEntry(env, k, d[i]) != Bad {
        assert UsablePair(env, k, (d[i].0, LastValue(ms, d[i].0)));
      }
    }
  }

  lemma NothingEncodes()
    ensures Utf8.Encodable([])
  {
  }

  // ----- the sum in the manifest

  /** The counts of a source's entries, those under empty keys apart. */
  function EntryTotal(k: Kind, items: seq<JS.Item>): int {
    if items == [] then 0
    else
      var it := items[|items| - 1];
      EntryTotal(k, items[..|items| - 1]) + (if it.1.JInt? && !EmptyMark(k, it.0) then it.1.n else 0)
  }

  function FileTotal(max: int, files: seq<File>): int {
    if files == [] then 0
    else
      var last := |files| - 1;
      FileTotal(max, files[..last])
      + (match LoadSource(max, files[last]) case None => 0 case Some(s) => EntryTotal(s.kind, s.items))
  }

  lemma {:induction false} RowSumAppend(a: seq<Row<Key>>, b: seq<Row<Key>>)
    ensures RowSum(a + b) == RowSum(a) + RowSum(b)
  {
    if b == [] {
      assert a + b == a;
    } else {
      assert (a + b)[..|a + b| - 1] == a + b[..|b| - 1];
      RowSumAppend(a, b[..|b| - 1]);
    }
  }

  lemma {:induction false} EntriesAddUp(env: Env, k: Kind, items: seq<JS.Item>)
    requires forall i :: 0 <= i < |items| ==> ReadEntry(env, k, items[i]) != Bad
    ensures RowSum(RowsOf(env, k, items)) == EntryTotal(k, items)
  {
    hide ReadEntry, RowSum, EmptyMark;
    NoRows();
    if items != [] {
      var last := |items| - 1;
      var e := ReadEntry(env, k, items[last]);
      EntriesAddUp(env, k, items[..last]);
      GoodIsCounted(env, k, items[last]);
      RowSumAppend(RowsOf(env, k, items[..last]), if e.Good? then [e.r] else []);
    }
  }

  lemma GoodIsCounted(env: Env, k: Kind, item: JS.Item)
    requires ReadEntry(env, k, item) != Bad
    ensures var e := ReadEntry(env, k, item);
            && item.1.JInt? && (e.Good? <==> !EmptyMark(k, item.0))
            && RowSum(if e.Good? then [e.r] else []) == if e.Good? then item.1.n else 0
  {
    hide NormalizeV1;
    var e := ReadEntry(env, k, item);
    if e.Good? {
      assert [e.r][..0] == [];
    }
  }

  lemma {:induction false} FilesAddUp(env: Env, max: int, files: seq<File>)
    requires AllAccepted(env, max, files)
    ensures RowSum(AllRows(env, max, files)) == FileTotal(max, files)
  {
    hide LoadSource, RowsOf, RowSum, EntryTotal, ReadEntry;
    NoRows();
    if files != [] {
      var last := |files| - 1;
      var s := LoadSource(max, files[last]).value;
      FilesAddUp(env, max, files[..last]);
      EntriesAddUp(env, s.kind, s.items);
      RowSumAppend(AllRows(env, max, files[..last]), RowsOf(env, s.kind, s.items));
    }
  }

  lemma NoRows()
    ensures RowSum<Key>([]) == 0
  {
  }

  /** Records that list a table of integers have its sum. */
  lemma {:induction false} ListedTotal(t: Table<Key>, rows: seq<Record>)
    requires forall i :: 0 <= i < |rows| ==> KeyOf(rows[i]) in t && t[KeyOf(rows[i])] == Int(rows[i].count)
    requires forall i, j :: 0 <= i < j < |rows| ==> KeyOf(rows[i]) != KeyOf(rows[j])
    requires forall k :: k in t ==> exists i :: 0 <= i < |rows| && KeyOf(rows[i]) == k
    ensures CountSum(rows) == TableSum(t) && |rows| == |t|
    decreases |rows|
  {
    hide KeyOf, TableSum;
    if rows == [] {
      NothingListed(t);
    } else {
      var last := |rows| - 1;
      var k, before := KeyOf(rows[last]), rows[..last];
      TableSumRemove(t, k);
      OneLess(t, k);
      forall x | x in t - {k} ensures exists i :: 0 <= i < |before| && KeyOf(before[i]) == x {
        var i :| 0 <= i < |rows| && KeyOf(rows[i]) == x;
        assert KeyOf(before[i]) == x;
      }
      ListedTotal(t - {k}, before);
    }
  }

  lemma NothingListed(t: Table<Key>)
    requires forall k :: k !in t
    ensures TableSum(t) == 0 && |t| == 0
  {
    assert t == map[];
  }

  lemma OneLess(t: Table<Key>, k: Key)
    requires k in t
    ensures |t - {k}| == |t| - 1
  {
    assert t.Keys == (t - {k}).Keys + {k};
  }

  /** MAIN: the manifest's sum is the plain sum of the counts of all entries, those under empty keys
      apart, and its number that of the features, as long as no feature's sum leaves the SQLite integers. */
  lemma StageConserves(env: Env, max: int, files: seq<File>, rounded: Key -> int, rows: seq<Record>)
    requires AllAccepted(env, max, files)
    requires Cursor(Upserts(map[], AllRows(env, max, files)), rounded, rows)
    requires forall k :: k in Upserts(map[], AllRows(env, max, files)) ==> KeySum(AllRows(env, max, files), k) <= JS.MAX_SQLITE_COUNT
    ensures CountSum(rows) == FileTotal(max, files) && |rows| == |Upserts(map[], AllRows(env, max, files))|
  {
    hide AllRows, Upserts, KeySum, AllAccepted, FileTotal, RowLess, KeyLess, CountSum, TableSum, RowSum;
    var all := AllRows(env, max, files);
    var t := Upserts(map[], all);
    AllRowsPositive(env, max, files);
    FilesAddUp(env, max, files);
    forall k | k in t ensures t[k].Int? && 1 <= t[k].n <= JS.MAX_SQLITE_COUNT {
      UpsertsAreSums(all, k);
    }
    IntegersConserve(all);
    forall i | 0 <= i < |rows| - 1 ensures KeyLess(KeyOf(rows[i]), KeyOf(rows[i + 1])) {
      SameOrder(KeyOf(rows[i]), KeyOf(rows[i + 1]));
    }
    forall i, j | 0 <= i < j < |rows| ensures KeyOf(rows[i]) != KeyOf(rows[j]) {
      AscendingAll(rows, i, j);
    }
    ListedTotal(t, rows);
  }
}
