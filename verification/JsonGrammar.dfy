/** The grammar of RFC 8259 as syntax trees with their texts and values, and that the scanner takes
    exactly the texts of the grammar and gives each its value. */
module JsonGrammar {
  import opened Text
  import opened JsonScanner
  import C = CanonicalJson
  import Utf8

  // ----- strings

  /** The four digits of a UTF-16 code unit. */
  predicate CodeUnit(s: Str, n: int) {
    && |s| == 4 && 0 <= n < 0x10000
    && HexDigitIs(s[0], n / 4096) && HexDigitIs(s[1], n / 256 % 16) && HexDigitIs(s[2], n / 16 % 16) && HexDigitIs(s[3], n % 16)
  }

  /** The characters after a backslash, and what they stand for. */
  const SHORT: Str := Ascii("\"\\/bfnrt")
  const MEANT: Str := [0x22, 0x5C, 0x2F, 0x08, 0x0C, 0x0A, 0x0D, 0x09]

  datatype Piece =
    | Plain(c: int)                    // a character as it is
    | Short(k: nat)                    // the k-th of the short escapes
    | Escaped(digits: Str, unit: int)  // \u and the digits of a code unit

  predicate ValidPiece(p: Piece) {
    match p
    case Plain(c) => c != QUOTE && c != BACKSLASH && !(0 <= c < 0x20)
    case Short(k) => k < 8
    case Escaped(digits, unit) => CodeUnit(digits, unit)
  }

  predicate ValidPieces(ps: seq<Piece>) {
    forall i :: 0 <= i < |ps| ==> ValidPiece(ps[i])
  }

  function PieceText(p: Piece): (r: Str)
    requires ValidPiece(p)
    ensures r != []
  {
    match p
    case Plain(c) => [c]
    case Short(k) => [BACKSLASH, SHORT[k]]
    case Escaped(digits, _) => [BACKSLASH, 'u' as int] + digits
  }

  function PiecesText(ps: seq<Piece>): Str
    requires ValidPieces(ps)
  {
    if ps == [] then [] else PieceText(ps[0]) + PiecesText(ps[1..])
  }

  predicate HighPiece(p: Piece) {
    p.Escaped? && 0xD800 <= p.unit < 0xDC00
  }

  predicate LowPiece(p: Piece) {
    p.Escaped? && 0xDC00 <= p.unit < 0xE000
  }

  function PieceValue(p: Piece): int
    requires ValidPiece(p)
  {
    match p
    case Plain(c) => c
    case Short(k) => MEANT[k]
    case Escaped(_, unit) => unit
  }

  /** The text the pieces stand for; the escapes of a surrogate pair stand for one character. */
  function PiecesValue(ps: seq<Piece>): Str
    requires ValidPieces(ps)
  {
    if ps == [] then []
    else if |ps| > 1 && HighPiece(ps[0]) && LowPiece(ps[1]) then
      [0x10000 + (ps[0].unit % 0x400) * 0x400 + ps[1].unit % 0x400] + PiecesValue(ps[2..])
    else [PieceValue(ps[0])] + PiecesValue(ps[1..])
  }

  lemma DigitReads(c: int, d: int)
    ensures HexDigitIs(c, d) <==> HexDigit(c) == Some(d)
  {
    if 0 <= d < 16 {
      assert HEX_LOWER[d] == if d < 10 then '0' as int + d else 'a' as int + d - 10;
      assert HEX_UPPER[d] == if d < 10 then '0' as int + d else 'A' as int + d - 10;
    }
  }

  lemma FourDigits(n: int, a: int, b: int, c: int, d: int)
    requires 0 <= a < 16 && 0 <= b < 16 && 0 <= c < 16 && 0 <= d < 16
    ensures n == ((a * 16 + b) * 16 + c) * 16 + d <==>
            0 <= n < 0x10000 && a == n / 4096 && b == n / 256 % 16 && c == n / 16 % 16 && d == n % 16
  {
  }

  lemma UnitReads(t: Str, i: nat, n: int)
    ensures Hex4(t, i) == Some(n) <==> i + 4 <= |t| && CodeUnit(t[i..i + 4], n)
  {
    if i + 4 <= |t| {
      var s := t[i..i + 4];
      assert s[0] == t[i] && s[1] == t[i + 1] && s[2] == t[i + 2] && s[3] == t[i + 3];
      UnitOfDigits(t, i, s, n);
    }
  }

  lemma UnitOfDigits(t: Str, i: nat, s: Str, n: int)
    requires i + 4 <= |t| && |s| == 4
    requires s[0] == t[i] && s[1] == t[i + 1] && s[2] == t[i + 2] && s[3] == t[i + 3]
    ensures Hex4(t, i) == Some(n) <==> CodeUnit(s, n)
  {
    hide HexDigit, HexDigitIs;
    forall c, d ensures HexDigitIs(c, d) <==> HexDigit(c) == Some(d) {
      DigitReads(c, d);
    }
    forall c | HexDigit(c).Some? ensures 0 <= HexDigit(c).value < 16 {
      DigitRange(c);
    }
    if Hex4(t, i).Some? {
      FourDigits(Hex4(t, i).value, HexDigit(s[0]).value, HexDigit(s[1]).value, HexDigit(s[2]).value, HexDigit(s[3]).value);
    }
    if CodeUnit(s, n) {
      FourDigits(n, n / 4096, n / 256 % 16, n / 16 % 16, n % 16);
    }
  }

  lemma DigitRange(c: int)
    requires HexDigit(c).Some?
    ensures 0 <= HexDigit(c).value < 16
  {
  }

  lemma ShortReads(c: int)
    ensures SimpleEscape(c).Some? <==> exists k :: 0 <= k < 8 && SHORT[k] == c
    ensures forall k :: 0 <= k < 8 && SHORT[k] == c ==> SimpleEscape(c) == Some(MEANT[k]) && c != 'u' as int
  {
    assert SHORT[0] == QUOTE && SHORT[1] == BACKSLASH && SHORT[2] == '/' as int && SHORT[3] == 'b' as int;
    assert SHORT[4] == 'f' as int && SHORT[5] == 'n' as int && SHORT[6] == 'r' as int && SHORT[7] == 't' as int;
  }

  /** The text of the first piece is what stands first. */
  lemma PieceFirst(t: Str, i: nat, ps: seq<Piece>, rest: Str)
    requires ValidPieces(ps) && ps != [] && C.Ahead(t, i, PiecesText(ps) + [QUOTE], rest)
    ensures var e, tail := PieceText(ps[0]), PiecesText(ps[1..]) + [QUOTE];
            && C.Ahead(t, i, e, tail + rest) && C.Ahead(t, i + |e|, tail, rest)
            && i + |e| <= |t| && t[i..i + |e|] == e
  {
    hide PieceText, ValidPiece;
    var e, tail := PieceText(ps[0]), PiecesText(ps[1..]) + [QUOTE];
    assert PiecesText(ps) + [QUOTE] == e + tail;
    C.AheadStep(t, i, e, tail, rest);
    assert t[i..][..|e|] == e;
  }

  /** Whether an escaped code unit comes next. */
  predicate EscapeNext(t: Str, i: nat) {
    At(t, i, BACKSLASH) && At(t, i + 1, 'u' as int)
  }

  lemma EscapeIsPiece(t: Str, i: nat, ps: seq<Piece>, rest: Str)
    requires ValidPieces(ps) && C.Ahead(t, i, PiecesText(ps) + [QUOTE], rest)
    ensures EscapeNext(t, i) <==> ps != [] && ps[0].Escaped?
    ensures EscapeNext(t, i) ==> Hex4(t, i + 2) == Some(ps[0].unit)
    ensures ps == [] <==> At(t, i, QUOTE)
  {
    hide HexDigitIs, Hex4;
    if ps == [] {
      C.AheadFirst(t, i, PiecesText(ps) + [QUOTE], rest);
    } else {
      PieceFirst(t, i, ps, rest);
      var e := PieceText(ps[0]);
      assert t[i] == t[i..i + |e|][0] == e[0];
      assert |e| > 1 ==> t[i + 1] == t[i..i + |e|][1] == e[1];
      match ps[0]
      case Plain(c) =>
      case Short(k) => ShortReads(SHORT[k]);
      case Escaped(digits, unit) =>
        assert t[i + 2..i + 6] == t[i..i + 6][2..] == digits;
        UnitReads(t, i + 2, unit);
    }
  }

  lemma SingleUnit(t: Str, i: nat, ps: seq<Piece>, rest: Str)
    requires ValidPieces(ps) && ps != [] && C.Ahead(t, i, PiecesText(ps) + [QUOTE], rest)
    requires !(|ps| > 1 && HighPiece(ps[0]) && LowPiece(ps[1]))
    ensures i < |t| && t[i] != QUOTE && ScanUnit(t, i) == Unit(PieceValue(ps[0]), i + |PieceText(ps[0])|)
  {
    hide Hex4, PiecesText, C.Ahead;
    EscapeIsPiece(t, i, ps, rest);
    PieceFirst(t, i, ps, rest);
    var e := PieceText(ps[0]);
    assert t[i] == t[i..i + |e|][0] == e[0];
    assert |e| > 1 ==> t[i + 1] == t[i..i + |e|][1] == e[1];
    match ps[0]
    case Plain(c) =>
    case Short(k) => ShortReads(SHORT[k]);
    case Escaped(digits, unit) => EscapeIsPiece(t, i + 6, ps[1..], rest);
  }

  lemma EscapedFirst(t: Str, i: nat, ps: seq<Piece>, rest: Str)
    requires ValidPieces(ps) && ps != [] && ps[0].Escaped? && C.Ahead(t, i, PiecesText(ps) + [QUOTE], rest)
    ensures EscapeNext(t, i) && Hex4(t, i + 2) == Some(ps[0].unit)
    ensures C.Ahead(t, i + 6, PiecesText(ps[1..]) + [QUOTE], rest)
  {
    hide Hex4, C.Ahead, PiecesText;
    EscapeIsPiece(t, i, ps, rest);
    PieceFirst(t, i, ps, rest);
  }

  lemma JoinedUnit(t: Str, i: nat, hi: int, lo: int)
    requires EscapeNext(t, i) && EscapeNext(t, i + 6) && Hex4(t, i + 2) == Some(hi) && Hex4(t, i + 8) == Some(lo)
    requires 0xD800 <= hi < 0xDC00 && 0xDC00 <= lo < 0xE000
    ensures ScanUnit(t, i) == Unit(0x10000 + (hi % 0x400) * 0x400 + lo % 0x400, i + 12)
  {
    hide Hex4;
    assert hi % 0x400 == hi - 0xD800 && lo % 0x400 == lo - 0xDC00;
  }

  lemma PairUnit(t: Str, i: nat, ps: seq<Piece>, rest: Str)
    requires ValidPieces(ps) && |ps| > 1 && C.Ahead(t, i, PiecesText(ps) + [QUOTE], rest)
    requires HighPiece(ps[0]) && LowPiece(ps[1])
    ensures i < |t| && t[i] != QUOTE && ScanUnit(t, i) == Unit(PiecesValue(ps)[0], i + 12)
    ensures C.Ahead(t, i + 12, PiecesText(ps[2..]) + [QUOTE], rest)
  {
    hide Hex4, PiecesText, C.Ahead, ScanUnit, CodeUnit;
    EscapedFirst(t, i, ps, rest);
    EscapedFirst(t, i + 6, ps[1..], rest);
    assert ps[1..][1..] == ps[2..];
    JoinedUnit(t, i, ps[0].unit, ps[1].unit);
  }

  lemma StringStep(t: Str, i: nat, c: int, next: nat)
    requires i < |t| && t[i] != QUOTE && ScanUnit(t, i) == Unit(c, next) && ScanString(t, next).Body?
    ensures ScanString(t, i) == Body([c] + ScanString(t, next).text, ScanString(t, next).end)
  {
    hide ScanUnit;
  }

  /** Every text of the grammar between two quotes is scanned to its value. */
  lemma {:induction false} PiecesScan(t: Str, i: nat, ps: seq<Piece>, rest: Str)
    requires ValidPieces(ps) && C.Ahead(t, i, PiecesText(ps) + [QUOTE], rest)
    ensures ScanString(t, i) == Body(PiecesValue(ps), |t| - |rest|)
    decreases |ps|
  {
    hide ScanUnit, PieceText, PieceValue, PiecesText, ValidPiece, C.Ahead;
    if ps == [] {
      NoPiecesScan(t, i, rest);
    } else {
      hide ScanString;
      if |ps| > 1 && HighPiece(ps[0]) && LowPiece(ps[1]) {
        PairUnit(t, i, ps, rest);
        PiecesScan(t, i + 12, ps[2..], rest);
        StringStep(t, i, PiecesValue(ps)[0], i + 12);
      } else {
        SingleUnit(t, i, ps, rest);
        PieceFirst(t, i, ps, rest);
        PiecesScan(t, i + |PieceText(ps[0])|, ps[1..], rest);
        StringStep(t, i, PieceValue(ps[0]), i + |PieceText(ps[0])|);
      }
    }
  }

  lemma NoPiecesScan(t: Str, i: nat, rest: Str)
    requires C.Ahead(t, i, PiecesText([]) + [QUOTE], rest)
    ensures ScanString(t, i) == Body([], |t| - |rest|)
  {
    EscapeIsPiece(t, i, [], rest);
    C.AheadStep(t, i, [], [QUOTE], rest);
    NoPieces();
  }

  lemma NoPieces()
    ensures PiecesText([]) == []
  {
  }

  // ----- and nothing else is a string

  /** The piece at i, when no pair starts there. */
  lemma PieceAt(s: Str, i: nat) returns (p: Piece)
    requires i < |s| && ScanUnit(s, i).Unit? && s[i] != QUOTE
    requires ScanUnit(s, i).next != i + 12
    ensures ValidPiece(p) && s[i..ScanUnit(s, i).next] == PieceText(p) && ScanUnit(s, i).c == PieceValue(p)
    ensures HighPiece(p) && EscapeNext(s, i + 6) ==> Hex4(s, i + 8).Some? && !(0xDC00 <= Hex4(s, i + 8).value < 0xE000)
    ensures p.Escaped? ==> ScanUnit(s, i).next == i + 6
  {
    hide Hex4, CodeUnit;
    if s[i] != BACKSLASH {
      p := Plain(s[i]);
    } else if s[i + 1] == 'u' as int {
      p := EscapedAt(s, i, Hex4(s, i + 2).value);
    } else {
      ShortReads(s[i + 1]);
      var k :| 0 <= k < 8 && SHORT[k] == s[i + 1];
      p := Short(k);
    }
  }

  lemma PairAt(s: Str, i: nat) returns (hi: Piece, lo: Piece)
    requires i < |s| && ScanUnit(s, i).Unit? && s[i] != QUOTE && ScanUnit(s, i).next == i + 12
    ensures HighPiece(hi) && LowPiece(lo) && ValidPiece(hi) && ValidPiece(lo)
    ensures i + 12 <= |s| && s[i..i + 12] == PieceText(hi) + PieceText(lo)
    ensures [ScanUnit(s, i).c] == PiecesValue([hi, lo])
  {
    hide Hex4, CodeUnit, PieceText, PiecesValue;
    PairUnits(s, i);
    var a, b := Hex4(s, i + 2).value, Hex4(s, i + 8).value;
    hi := EscapedAt(s, i, a);
    lo := EscapedAt(s, i + 6, b);
    SplitText(s, i, i + 6, i + 12);
    PairValue(hi, lo);
  }

  lemma PairUnits(s: Str, i: nat)
    requires i < |s| && ScanUnit(s, i).Unit? && ScanUnit(s, i).next == i + 12
    ensures i + 12 <= |s| && EscapeNext(s, i) && EscapeNext(s, i + 6) && Hex4(s, i + 2).Some? && Hex4(s, i + 8).Some?
    ensures var a, b := Hex4(s, i + 2).value, Hex4(s, i + 8).value;
            0xD800 <= a < 0xDC00 && 0xDC00 <= b < 0xE000 && ScanUnit(s, i).c == 0x10000 + (a - 0xD800) * 0x400 + (b - 0xDC00)
  {
    hide Hex4;
    assert Hex4(s, i + 8).Some? ==> i + 12 <= |s| by {
      Hex4Fits(s, i + 8);
    }
  }

  lemma Hex4Fits(s: Str, i: nat)
    ensures Hex4(s, i).Some? ==> i + 4 <= |s|
  {
  }

  lemma EscapedAt(s: Str, i: nat, unit: int) returns (p: Piece)
    requires EscapeNext(s, i) && Hex4(s, i + 2) == Some(unit)
    ensures p.Escaped? && p.unit == unit && ValidPiece(p) && i + 6 <= |s| && s[i..i + 6] == PieceText(p)
  {
    hide Hex4, CodeUnit;
    UnitReads(s, i + 2, unit);
    p := Escaped(s[i + 2..i + 6], unit);
    assert s[i..i + 6] == [s[i], s[i + 1]] + s[i + 2..i + 6];
  }

  lemma PairValue(hi: Piece, lo: Piece)
    requires ValidPiece(hi) && ValidPiece(lo) && HighPiece(hi) && LowPiece(lo)
    ensures PiecesValue([hi, lo]) == [0x10000 + (hi.unit - 0xD800) * 0x400 + (lo.unit - 0xDC00)]
  {
    hide ValidPiece;
    assert [hi, lo][2..] == [];
    assert hi.unit % 0x400 == hi.unit - 0xD800 && lo.unit % 0x400 == lo.unit - 0xDC00;
  }

  lemma SplitText(s: Str, i: nat, j: nat, k: nat)
    requires i <= j <= k <= |s|
    ensures s[i..k] == s[i..j] + s[j..k]
  {
  }

  lemma AheadOf(s: Str, i: nat, e: nat, text: Str)
    requires i <= e <= |s| && s[i..e] == text
    ensures C.Ahead(s, i, text, s[e..])
  {
    assert s[i..] == s[i..e] + s[e..];
  }

  /** What the scanner takes for a string is pieces of the grammar and a quote. */
  lemma {:induction false} StringSound(s: Str, i: nat) returns (ps: seq<Piece>)
    requires ScanString(s, i).Body?
    ensures ValidPieces(ps) && i <= ScanString(s, i).end <= |s|
    ensures s[i..ScanString(s, i).end] == PiecesText(ps) + [QUOTE] && ScanString(s, i).text == PiecesValue(ps)
    decreases |s| - i
  {
    hide ScanUnit, PieceText, PieceValue, C.Ahead;
    if s[i] == QUOTE {
      ps := [];
    } else {
      var e, u := ScanString(s, i).end, ScanUnit(s, i);
      var more := StringSound(s, u.next);
      SplitText(s, i, u.next, e);
      AheadOf(s, u.next, e, PiecesText(more) + [QUOTE]);
      EscapeIsPiece(s, u.next, more, s[e..]);
      if u.next == i + 12 {
        var hi, lo := PairAt(s, i);
        ps := [hi, lo] + more;
        TwoPieces(hi, lo, more);
      } else {
        var p := PieceAt(s, i);
        ps := [p] + more;
        assert ps[1..] == more;
        assert !(HighPiece(p) && more != [] && LowPiece(more[0]));
      }
    }
  }

  lemma TwoPieces(hi: Piece, lo: Piece, more: seq<Piece>)
    requires ValidPiece(hi) && ValidPiece(lo) && ValidPieces(more) && HighPiece(hi) && LowPiece(lo)
    ensures var ps := [hi, lo] + more;
            && ValidPieces(ps) && PiecesText(ps) == PieceText(hi) + PieceText(lo) + PiecesText(more)
            && PiecesValue(ps) == PiecesValue([hi, lo]) + PiecesValue(more)
  {
    hide PieceText, ValidPiece;
    var ps := [hi, lo] + more;
    assert ps[1..] == [lo] + more && ps[1..][1..] == more && ps[2..] == more;
    assert [hi, lo][2..] == [];
  }

  // ----- how `json.dumps` writes a string when it keeps to ASCII

  /** The digits of a code unit, in lower case or in upper case. */
  function HexText(n: int, upper: bool): Str
    requires 0 <= n < 0x10000
  {
    var d := if upper then HEX_UPPER else HEX_LOWER;
    [d[n / 4096], d[n / 256 % 16], d[n / 16 % 16], d[n % 16]]
  }

  /** `\uXXXX`, and two of them above U+FFFF. */
  function EscapedPieces(c: int, upper: bool): (r: seq<Piece>)
    requires Utf8.Scalar(c)
  {
    if c < 0x10000 then [Escaped(HexText(c, upper), c)]
    else
      var hi, lo := 0xD800 + (c - 0x10000) / 0x400, 0xDC00 + (c - 0x10000) % 0x400;
      [Escaped(HexText(hi, upper), hi), Escaped(HexText(lo, upper), lo)]
  }

  /** How `json.dumps` writes a character: short escapes, printable ASCII, and else `\uXXXX`. */
  function AsciiPieces(c: int, upper: bool): (r: seq<Piece>)
    requires Utf8.Scalar(c)
  {
    if c == 0x22 then [Short(0)]
    else if c == 0x5C then [Short(1)]
    else if c == 0x08 then [Short(3)]
    else if c == 0x0C then [Short(4)]
    else if c == 0x0A then [Short(5)]
    else if c == 0x0D then [Short(6)]
    else if c == 0x09 then [Short(7)]
    else if 0x20 <= c < 0x7F then [Plain(c)]
    else EscapedPieces(c, upper)
  }

  /** The pieces are a way to write the character. */
  predicate Writes(ps: seq<Piece>, c: int) {
    && ValidPieces(ps)
    && ((|ps| == 1 && Utf8.Scalar(c) && PieceValue(ps[0]) == c)
        || (|ps| == 2 && HighPiece(ps[0]) && LowPiece(ps[1])
            && c == 0x10000 + (ps[0].unit - 0xD800) * 0x400 + (ps[1].unit - 0xDC00)))
  }

  lemma HexTextIsUnit(n: int, upper: bool)
    requires 0 <= n < 0x10000
    ensures CodeUnit(HexText(n, upper), n)
  {
  }

  /** Every character can be written with escapes only, in either case, and as `json.dumps` does. */
  lemma EveryCharacter(c: int, upper: bool)
    requires Utf8.Scalar(c)
    ensures Writes(EscapedPieces(c, upper), c) && Writes(AsciiPieces(c, upper), c)
  {
    hide HexText, CodeUnit;
    if c < 0x10000 {
      HexTextIsUnit(c, upper);
    } else {
      HexTextIsUnit(0xD800 + (c - 0x10000) / 0x400, upper);
      HexTextIsUnit(0xDC00 + (c - 0x10000) % 0x400, upper);
    }
  }

  function Flat(pss: seq<seq<Piece>>): seq<Piece> {
    if pss == [] then [] else pss[0] + Flat(pss[1..])
  }

  lemma {:induction false} WrittenValue(pss: seq<seq<Piece>>, s: Str)
    requires |pss| == |s| && forall i :: 0 <= i < |s| ==> Writes(pss[i], s[i])
    ensures ValidPieces(Flat(pss)) && PiecesValue(Flat(pss)) == s
  {
    hide ValidPiece, PieceValue;
    if s != [] {
      WrittenValue(pss[1..], s[1..]);
      OneWritten(pss[0], s[0], Flat(pss[1..]));
      assert [s[0]] + s[1..] == s;
    }
  }

  lemma OneWritten(ps: seq<Piece>, c: int, more: seq<Piece>)
    requires Writes(ps, c) && ValidPieces(more)
    ensures ValidPieces(ps + more) && PiecesValue(ps + more) == [c] + PiecesValue(more)
  {
    hide CodeUnit, PieceText;
    if |ps| == 1 {
      assert (ps + more)[1..] == more;
      assert ps[0].Escaped? ==> !HighPiece(ps[0]);
    } else {
      assert ps == [ps[0], ps[1]];
      TwoPieces(ps[0], ps[1], more);
      PairValue(ps[0], ps[1]);
    }
  }

  /** MAIN: a text written character by character in any of these ways, the escapes in either case,
      is read back. */
  lemma WrittenReadsBack(t: Str, i: nat, pss: seq<seq<Piece>>, s: Str, rest: Str)
    requires |pss| == |s| && forall k :: 0 <= k < |s| ==> Writes(pss[k], s[k])
    requires ValidPieces(Flat(pss)) && C.Ahead(t, i, PiecesText(Flat(pss)) + [QUOTE], rest)
    ensures ScanString(t, i) == Body(s, |t| - |rest|)
  {
    WrittenValue(pss, s);
    PiecesScan(t, i, Flat(pss), rest);
  }

  /** `json.dumps` of a text with ASCII only. */
  function AsciiText(s: Str, upper: bool): Str
    requires Utf8.Encodable(s)
  {
    [QUOTE] + AsciiBody(s, upper) + [QUOTE]
  }

  function AsciiBody(s: Str, upper: bool): Str
    requires Utf8.Encodable(s)
  {
    if s == [] then []
    else
      EveryCharacter(s[0], upper);
      PiecesText(AsciiPieces(s[0], upper)) + AsciiBody(s[1..], upper)
  }

  function AllPieces(s: Str, upper: bool): (r: seq<seq<Piece>>)
    requires Utf8.Encodable(s)
    ensures |r| == |s| && forall i :: 0 <= i < |s| ==> r[i] == AsciiPieces(s[i], upper)
  {
    seq(|s|, i requires 0 <= i < |s| => AsciiPieces(s[i], upper))
  }

  lemma {:induction false} TextConcat(a: seq<Piece>, b: seq<Piece>)
    requires ValidPieces(a) && ValidPieces(b)
    ensures ValidPieces(a + b) && PiecesText(a + b) == PiecesText(a) + PiecesText(b)
  {
    hide ValidPiece, PieceText;
    if a == [] {
      assert a + b == b;
    } else {
      assert (a + b)[1..] == a[1..] + b;
      TextConcat(a[1..], b);
    }
  }

  lemma {:induction false} BodyIsPieces(s: Str, upper: bool)
    requires Utf8.Encodable(s)
    ensures ValidPieces(Flat(AllPieces(s, upper))) && PiecesText(Flat(AllPieces(s, upper))) == AsciiBody(s, upper)
  {
    hide AsciiPieces, ValidPiece, PiecesText;
    NoPieces();
    if s != [] {
      BodyIsPieces(s[1..], upper);
      EveryCharacter(s[0], upper);
      TextConcat(AsciiPieces(s[0], upper), Flat(AllPieces(s[1..], upper)));
      assert AllPieces(s, upper)[1..] == AllPieces(s[1..], upper);
    }
  }

  /** MAIN: what `json.dumps` prints for a text, in either case of the digits, is read back. */
  lemma AsciiReadsBack(t: Str, i: nat, s: Str, upper: bool, rest: Str)
    requires Utf8.Encodable(s) && C.Ahead(t, i, AsciiText(s, upper), rest)
    ensures At(t, i, QUOTE) && ScanString(t, i + 1) == Body(s, |t| - |rest|)
  {
    hide AsciiPieces, PiecesText;
    var body := AsciiBody(s, upper) + [QUOTE];
    assert AsciiText(s, upper) == [QUOTE] + body;
    C.AheadStep(t, i, [QUOTE], body, rest);
    C.AheadFirst(t, i, [QUOTE], body + rest);
    BodyIsPieces(s, upper);
    forall k | 0 <= k < |s| ensures Writes(AllPieces(s, upper)[k], s[k]) {
      EveryCharacter(s[k], upper);
    }
    WrittenReadsBack(t, i + 1, AllPieces(s, upper), s, rest);
  }

  // ----- the canonical text of a string

  /** How `json.dumps(ensure_ascii=False)` writes a character, as a piece. */
  function DumpPiece(c: int): (p: Piece)
  {
    if c == 0x22 then Short(0)
    else if c == 0x5C then Short(1)
    else if c == 0x08 then Short(3)
    else if c == 0x0C then Short(4)
    else if c == 0x0A then Short(5)
    else if c == 0x0D then Short(6)
    else if c == 0x09 then Short(7)
    else if 0 <= c < 0x20 then Escaped(HexText(c, false), c)
    else Plain(c)
  }

  lemma DumpPieceText(c: int)
    ensures ValidPiece(DumpPiece(c)) && PieceText(DumpPiece(c)) == C.EscapeChar(c) && PieceValue(DumpPiece(c)) == c
    ensures !HighPiece(DumpPiece(c))
  {
    hide HexText, CodeUnit;
    if 0 <= c < 0x20 {
      HexTextIsUnit(c, false);
      ControlText(c);
    }
  }

  lemma ControlText(c: int)
    requires 0 <= c < 0x20
    ensures HexText(c, false) == ['0' as int, '0' as int, C.HexChar(c / 16), C.HexChar(c % 16)]
  {
    LowerIsHexChar(0);
    LowerIsHexChar(c / 16);
    LowerIsHexChar(c % 16);
    assert c / 4096 == 0 && c / 256 % 16 == 0 && c / 16 % 16 == c / 16;
  }

  lemma LowerIsHexChar(d: int)
    requires 0 <= d < 16
    ensures HEX_LOWER[d] == C.HexChar(d)
  {
  }

  function DumpPieces(s: Str): (r: seq<Piece>)
    ensures |r| == |s| && ValidPieces(r)
  {
    if s == [] then []
    else
      DumpPieceText(s[0]);
      [DumpPiece(s[0])] + DumpPieces(s[1..])
  }

  lemma {:induction false} DumpIsPieces(s: Str)
    ensures PiecesText(DumpPieces(s)) == C.EscapeText(s) && PiecesValue(DumpPieces(s)) == s
  {
    hide DumpPiece, PieceText, PieceValue, ValidPiece;
    if s != [] {
      DumpPieceText(s[0]);
      DumpIsPieces(s[1..]);
      assert DumpPieces(s)[1..] == DumpPieces(s[1..]);
      assert s == [s[0]] + s[1..];
    }
  }

  /** A printed string is read back, at every position and whatever follows. */
  lemma DumpedScans(t: Str, i: nat, s: Str, rest: Str)
    requires C.Ahead(t, i, C.DumpString(s), rest)
    ensures At(t, i, QUOTE) && ScanString(t, i + 1) == Body(s, |t| - |rest|)
  {
    hide C.Ahead, PiecesText, C.EscapeText;
    DumpIsPieces(s);
    assert C.DumpString(s) == [QUOTE] + (C.EscapeText(s) + [QUOTE]);
    C.AheadStep(t, i, [QUOTE], C.EscapeText(s) + [QUOTE], rest);
    C.AheadFirst(t, i, [QUOTE], C.EscapeText(s) + [QUOTE] + rest);
    PiecesScan(t, i + 1, DumpPieces(s), rest);
  }

  lemma PieceIsLonger(p: Piece)
    requires ValidPiece(p) && PieceValue(p) >= 0
    ensures |C.EscapeChar(PieceValue(p))| <= |PieceText(p)|
  {
  }

  /** MAIN: among all ways to write a text the canonical one is the shortest. */
  lemma {:induction false} DumpIsShortest(ps: seq<Piece>)
    requires ValidPieces(ps) && forall i :: 0 <= i < |ps| ==> PieceValue(ps[i]) >= 0
    ensures |C.EscapeText(PiecesValue(ps))| <= |PiecesText(ps)|
  {
    hide PieceText, PieceValue, ValidPiece, C.EscapeChar;
    if ps != [] {
      if |ps| > 1 && HighPiece(ps[0]) && LowPiece(ps[1]) {
        DumpIsShortest(ps[2..]);
        TwoPieces(ps[0], ps[1], ps[2..]);
        assert ps == [ps[0], ps[1]] + ps[2..];
        PairIsLonger(ps[0], ps[1]);
        assert PiecesValue(ps)[1..] == PiecesValue(ps[2..]);
      } else {
        DumpIsShortest(ps[1..]);
        PieceIsLonger(ps[0]);
        assert PiecesValue(ps)[1..] == PiecesValue(ps[1..]);
      }
    }
  }

  lemma PairIsLonger(hi: Piece, lo: Piece)
    requires ValidPiece(hi) && ValidPiece(lo) && HighPiece(hi) && LowPiece(lo)
    ensures |C.EscapeChar(0x10000 + (hi.unit % 0x400) * 0x400 + lo.unit % 0x400)| <= |PieceText(hi) + PieceText(lo)|
  {
  }
}
