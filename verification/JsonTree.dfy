/** Whole values of RFC 8259 as syntax trees: numbers, words, arrays and objects with any white
    space, and that `json.loads` takes exactly their texts. */
module JsonTree {
  import opened Text
  import opened JsonScanner
  import opened JsonGrammar
  import C = CanonicalJson

  // ----- numbers

  predicate AllDigits(s: Str) {
    forall i :: 0 <= i < |s| ==> IsDigit(s[i])
  }

  /** `-` when it is negative, the digits of n, a fraction, and an exponent behind its mark. */
  datatype Number = Number(neg: bool, n: nat, frac: Str, mark: Str, exp: Str)

  predicate Mark(s: Str) {
    s in {Ascii("e"), Ascii("e+"), Ascii("e-"), Ascii("E"), Ascii("E+"), Ascii("E-")}
  }

  predicate ValidNumber(x: Number) {
    && AllDigits(x.frac) && AllDigits(x.exp)
    && (if x.exp == [] then x.mark == [] else Mark(x.mark))
  }

  function FractionText(x: Number): Str {
    if x.frac == [] then [] else [DOT] + x.frac
  }

  function NumberText(x: Number): Str {
    (if x.neg then [MINUS] else []) + C.Digits(x.n) + FractionText(x) + (x.mark + x.exp)
  }

  function Signed(neg: bool, n: nat): int {
    if neg then 0 - n else n
  }

  function NumberValue(x: Number): JValue {
    if x.frac == [] && x.exp == [] then JInt(Signed(x.neg, x.n)) else JFloat(NumberText(x))
  }

  /** What may follow a value: the end, white space, a comma or a closing bracket. */
  predicate Stops(rest: Str) {
    rest == [] || IsJsonSpace(rest[0]) || rest[0] == COMMA || rest[0] == CLOSE_BRACKET || rest[0] == CLOSE_BRACE
  }

  /** At i the text stands, and it ends at e. */
  predicate Stands(t: Str, i: nat, text: Str, e: nat) {
    i <= e <= |t| && t[i..e] == text
  }

  lemma PartStands(t: Str, i: nat, text: Str, e: nat, x: nat, y: nat)
    requires Stands(t, i, text, e) && x <= y <= |text|
    ensures Stands(t, i + x, text[x..y], i + y)
  {
    forall k | 0 <= k < y - x ensures t[i + x..i + y][k] == text[x..y][k] {
      assert t[i + x + k] == t[i..e][x + k];
    }
  }

  lemma {:induction false} DigitsEndAt(t: Str, i: nat, e: nat)
    requires i <= e <= |t|
    requires forall k :: i <= k < e ==> IsDigit(t[k])
    requires e < |t| ==> !IsDigit(t[e])
    ensures DigitsEnd(t, i) == e
    decreases e - i
  {
    if i < e {
      DigitsEndAt(t, i + 1, e);
    }
  }

  lemma StandsDigits(t: Str, i: nat, d: Str, e: nat)
    requires Stands(t, i, d, e) && AllDigits(d) && (e < |t| ==> !IsDigit(t[e]))
    ensures DigitsEnd(t, i) == e
  {
    assert forall k :: i <= k < e ==> t[k] == d[k - i];
    DigitsEndAt(t, i, e);
  }

  lemma {:induction false} DigitsShape(n: nat)
    ensures AllDigits(C.Digits(n)) && C.Digits(n)[0] == '0' as int ==> C.Digits(n) == ['0' as int]
    ensures AllDigits(C.Digits(n)) && Natural(C.Digits(n)) == n
  {
    C.DigitsValue(n);
  }

  lemma WholeStands(t: Str, a: nat, n: nat, j: nat)
    requires Stands(t, a, C.Digits(n), j) && (j < |t| ==> !IsDigit(t[j]))
    ensures a < j && IsDigit(t[a]) && Natural(t[a..j]) == n
    ensures if t[a] == '0' as int then j == a + 1 else DigitsEnd(t, a + 1) == j
  {
    hide C.Digits, DigitsEnd;
    var d := C.Digits(n);
    DigitsShape(n);
    assert t[a] == t[a..j][0] == d[0];
    PartStands(t, a, d, j, 1, |d|);
    StandsDigits(t, a + 1, d[1..], j);
  }

  lemma IntStands(t: Str, i: nat, neg: bool, n: nat, j: nat)
    requires Stands(t, i, (if neg then [MINUS] else []) + C.Digits(n), j) && (j < |t| ==> !IsDigit(t[j]))
    ensures IntEnd(t, i) == Some(j) && Integer(t[i..j]) == Signed(neg, n)
  {
    hide C.Digits, DigitsEnd, Natural;
    var sign := if neg then [MINUS] else [];
    var s := sign + C.Digits(n);
    assert s[|sign|..|s|] == C.Digits(n);
    PartStands(t, i, s, j, |sign|, |s|);
    WholeStands(t, i + |sign|, n, j);
    assert neg ==> t[i] == t[i..j][0] == MINUS && t[i..j][1..] == t[i + 1..j];
  }

  lemma FractionStands(t: Str, j: nat, frac: Str, f: nat)
    requires AllDigits(frac) && Stands(t, j, if frac == [] then [] else [DOT] + frac, f)
    requires f < |t| ==> !IsDigit(t[f]) && (frac == [] ==> t[f] != DOT)
    ensures FractionEnd(t, j) == f
  {
    if frac != [] {
      assert t[j] == t[j..f][0] && t[j + 1..f] == t[j..f][1..] == frac;
      assert t[j + 1] == t[j + 1..f][0];
      StandsDigits(t, j + 1, frac, f);
    }
  }

  lemma MarkShape(m: Str)
    requires Mark(m)
    ensures 1 <= |m| <= 2 && IsExponentMark(m[0]) && !IsDigit(m[0]) && m[0] != DOT
    ensures |m| == 2 ==> m[1] == '+' as int || m[1] == MINUS
  {
  }

  lemma ExponentStands(t: Str, f: nat, mark: Str, exp: Str, e: nat)
    requires AllDigits(exp) && (if exp == [] then mark == [] else Mark(mark)) && Stands(t, f, mark + exp, e)
    requires e < |t| ==> !IsDigit(t[e]) && (exp == [] ==> !IsExponentMark(t[e]))
    ensures ExponentEnd(t, f) == e
  {
    if exp != [] {
      hide Mark;
      MarkShape(mark);
      var k := f + |mark|;
      assert t[f] == t[f..e][0] == mark[0];
      assert |mark| == 2 ==> t[f + 1] == t[f..e][1] == mark[1];
      assert t[k..e] == t[f..e][|mark|..] == exp;
      assert t[k] == t[k..e][0] && IsDigit(exp[0]);
      StandsDigits(t, k, exp, e);
    }
  }

  /** The parts of a number that stands at i. */
  lemma NumberParts(t: Str, i: nat, x: Number, e: nat) returns (j: nat, f: nat)
    requires Stands(t, i, NumberText(x), e)
    ensures Stands(t, i, (if x.neg then [MINUS] else []) + C.Digits(x.n), j)
    ensures Stands(t, j, FractionText(x), f) && Stands(t, f, x.mark + x.exp, e)
    ensures i < j
  {
    hide C.Digits;
    var a, b, c := (if x.neg then [MINUS] else []) + C.Digits(x.n), FractionText(x), x.mark + x.exp;
    j, f := i + |a|, i + |a| + |b|;
    ThreeParts(t, i, e, a, b, c);
  }

  lemma ThreeParts(t: Str, i: nat, e: nat, a: Str, b: Str, c: Str)
    requires Stands(t, i, a + b + c, e)
    ensures var j, f := i + |a|, i + |a| + |b|; Stands(t, i, a, j) && Stands(t, j, b, f) && Stands(t, f, c, e)
  {
    var j, f := i + |a|, i + |a| + |b|;
    var s := a + b + c;
    assert s[..|a|] == a && s[|a|..|a| + |b|] == b && s[|a| + |b|..] == c;
    assert s[0..|a|] == a && s[|a| + |b|..|s|] == c;
    PartStands(t, i, s, e, 0, |a|);
    PartStands(t, i, s, e, |a|, |a| + |b|);
    PartStands(t, i, s, e, |a| + |b|, |s|);
  }

  /** A number before something that cannot extend it is scanned to its value. */
  lemma NumberScans(t: Str, i: nat, x: Number, e: nat)
    requires ValidNumber(x) && Stands(t, i, NumberText(x), e) && Stops(t[e..])
    ensures ScanNumber(t, i) == Got(NumberValue(x), e)
  {
    hide C.Digits, Integer, IntEnd, FractionEnd, ExponentEnd, Mark, NumberText, Stands, FractionText;
    var j, f := NumberParts(t, i, x, e);
    NumberEdges(t, x, j, f, e);
    IntStands(t, i, x.neg, x.n, j);
    FractionAt(t, j, x, f);
    ExponentStands(t, f, x.mark, x.exp, e);
    NumberOf(t, i, j, f, e);
    StandsIs(t, i, NumberText(x), e);
  }

  lemma StandsIs(t: Str, i: nat, text: Str, e: nat)
    requires Stands(t, i, text, e)
    ensures i <= e <= |t| && t[i..e] == text
  {
  }

  lemma FractionAt(t: Str, j: nat, x: Number, f: nat)
    requires AllDigits(x.frac) && Stands(t, j, FractionText(x), f)
    requires f < |t| ==> !IsDigit(t[f]) && (x.frac == [] ==> t[f] != DOT)
    ensures FractionEnd(t, j) == f
  {
    FractionStands(t, j, x.frac, f);
  }

  /** No part of the number runs on into the next. */
  lemma NumberEdges(t: Str, x: Number, j: nat, f: nat, e: nat)
    requires ValidNumber(x) && Stands(t, j, FractionText(x), f) && Stands(t, f, x.mark + x.exp, e) && Stops(t[e..])
    ensures j < |t| ==> !IsDigit(t[j])
    ensures f < |t| ==> !IsDigit(t[f]) && t[f] != DOT
    ensures e < |t| ==> !IsDigit(t[e]) && !IsExponentMark(t[e])
    ensures e == j <==> x.frac == [] && x.exp == []
  {
    hide Mark;
    assert e < |t| ==> t[e..][0] == t[e];
    assert f < e ==> t[f] == t[f..e][0] == (x.mark + x.exp)[0];
    assert j < f ==> t[j] == t[j..f][0] == DOT;
    if x.exp != [] {
      MarkShape(x.mark);
    }
  }

  lemma NumberOf(t: Str, i: nat, j: nat, f: nat, e: nat)
    requires i <= |t| && IntEnd(t, i) == Some(j) && FractionEnd(t, j) == f && ExponentEnd(t, f) == e
    ensures i < j <= f <= e <= |t|
    ensures ScanNumber(t, i) == if e == j then Got(JInt(Integer(t[i..j])), j) else Got(JFloat(t[i..e]), e)
  {
    hide IntEnd, FractionEnd, ExponentEnd, Integer;
  }

  // ----- and nothing else is a number

  lemma {:induction false} DigitsOfNatural(d: Str)
    requires d != [] && AllDigits(d) && (d[0] == '0' as int ==> |d| == 1)
    ensures Natural(d) >= 0 && C.Digits(Natural(d)) == d
    ensures d[0] != '0' as int ==> Natural(d) >= 1
    decreases |d|
  {
    var last := |d| - 1;
    if last == 0 {
      assert d[..0] == [];
    } else {
      DigitsOfNatural(d[..last]);
      assert d == d[..last] + [d[last]];
    }
  }

  lemma IntSound(s: Str, i: nat) returns (neg: bool, n: nat)
    requires i <= |s| && IntEnd(s, i).Some?
    ensures Stands(s, i, (if neg then [MINUS] else []) + C.Digits(n), IntEnd(s, i).value)
    ensures Integer(s[i..IntEnd(s, i).value]) == Signed(neg, n)
  {
    var j := IntEnd(s, i).value;
    neg := At(s, i, MINUS);
    var a := if neg then i + 1 else i;
    var d := s[a..j];
    assert forall k :: 0 <= k < |d| ==> d[k] == s[a + k];
    DigitsOfNatural(d);
    n := Natural(d);
    assert s[i..j] == (if neg then [MINUS] else []) + d;
    assert neg ==> s[i..j][1..] == d;
  }

  lemma FractionSound(s: Str, j: nat) returns (frac: Str)
    requires j <= |s|
    ensures AllDigits(frac) && Stands(s, j, if frac == [] then [] else [DOT] + frac, FractionEnd(s, j))
  {
    var f := FractionEnd(s, j);
    if f == j {
      frac := [];
    } else {
      frac := s[j + 1..f];
      assert s[j..f] == [DOT] + frac;
    }
  }

  lemma MarkIs(m: Str)
    requires 1 <= |m| <= 2 && IsExponentMark(m[0]) && (|m| == 2 ==> m[1] == '+' as int || m[1] == MINUS)
    ensures Mark(m)
  {
    if |m| == 1 {
      assert m == Ascii("e") || m == Ascii("E");
    } else if m[0] == 'e' as int {
      assert m == Ascii("e+") || m == Ascii("e-");
    } else {
      assert m == Ascii("E+") || m == Ascii("E-");
    }
  }

  lemma ExponentSound(s: Str, f: nat) returns (mark: Str, exp: Str)
    requires f <= |s|
    ensures AllDigits(exp) && (if exp == [] then mark == [] else Mark(mark)) && Stands(s, f, mark + exp, ExponentEnd(s, f))
  {
    var e := ExponentEnd(s, f);
    if e == f {
      mark, exp := [], [];
    } else {
      var k := if At(s, f + 1, '+' as int) || At(s, f + 1, MINUS) then f + 2 else f + 1;
      mark, exp := s[f..k], s[k..e];
      assert s[f..e] == mark + exp;
      MarkIs(mark);
    }
  }

  /** What the scanner takes for a number is one of the grammar. */
  lemma NumberSound(s: Str, i: nat) returns (x: Number)
    requires i <= |s| && ScanNumber(s, i).Got?
    ensures ValidNumber(x) && Stands(s, i, NumberText(x), ScanNumber(s, i).end) && ScanNumber(s, i).v == NumberValue(x)
  {
    hide C.Digits, Integer, IntEnd, FractionEnd, ExponentEnd, Mark;
    var j := IntEnd(s, i).value;
    var neg, n := IntSound(s, i);
    var frac := FractionSound(s, j);
    var f := FractionEnd(s, j);
    var mark, exp := ExponentSound(s, f);
    var e := ExponentEnd(s, f);
    x := Number(neg, n, frac, mark, exp);
    SplitText(s, i, j, f);
    SplitText(s, i, f, e);
  }

  // ----- trees

  /** `before` and `after` are white space around a value, `mid` white space before a colon. */
  datatype Tree =
    | Word(v: JValue)
    | Num(x: Number)
    | Quoted(ps: seq<Piece>)
    | Arr(gap: Str, items: Items)
    | Obj(gap: Str, members: Pairs)

  datatype Items = NoItem | Item(before: Str, v: Tree, after: Str, tail: Items)

  datatype Pairs = NoPair | Pair(before: Str, key: seq<Piece>, mid: Str, space: Str, v: Tree, after: Str, tail: Pairs)

  predicate Gap(s: Str) {
    forall i :: 0 <= i < |s| ==> IsJsonSpace(s[i])
  }

  /** The five words Python reads, and its negative one. */
  function WordText(v: JValue): Option<Str> {
    match v
    case JNull => Some(Ascii("null"))
    case JBool(b) => Some(if b then Ascii("true") else Ascii("false"))
    case JConstant(name) =>
      if name in {Ascii("NaN"), Ascii("Infinity"), Ascii("-Infinity")} then Some(name) else None
    case _ => None
  }

  /** An empty array or object may hold white space. */
  predicate ValidTree(tree: Tree) {
    match tree
    case Word(v) => WordText(v).Some?
    case Num(x) => ValidNumber(x)
    case Quoted(ps) => ValidPieces(ps)
    case Arr(gap, items) => (if items.NoItem? then Gap(gap) else gap == []) && ValidItems(items)
    case Obj(gap, members) => (if members.NoPair? then Gap(gap) else gap == []) && ValidPairs(members)
  }

  predicate ValidItems(items: Items) {
    match items
    case NoItem => true
    case Item(before, v, after, tail) => Gap(before) && Gap(after) && ValidTree(v) && ValidItems(tail)
  }

  predicate ValidPairs(ms: Pairs) {
    match ms
    case NoPair => true
    case Pair(before, key, mid, space, v, after, tail) =>
      Gap(before) && Gap(mid) && Gap(space) && Gap(after) && ValidPieces(key) && ValidTree(v) && ValidPairs(tail)
  }

  function StringText(ps: seq<Piece>): Str
    requires ValidPieces(ps)
  {
    [QUOTE] + (PiecesText(ps) + [QUOTE])
  }

  function TreeText(tree: Tree): Str
    requires ValidTree(tree)
  {
    match tree
    case Word(v) => WordText(v).value
    case Num(x) => NumberText(x)
    case Quoted(ps) => StringText(ps)
    case Arr(gap, items) => [OPEN_BRACKET] + (gap + (ItemsText(items) + [CLOSE_BRACKET]))
    case Obj(gap, members) => [OPEN_BRACE] + (gap + (PairsText(members) + [CLOSE_BRACE]))
  }

  function ItemsText(items: Items): Str
    requires ValidItems(items)
  {
    match items
    case NoItem => []
    case Item(before, v, after, tail) =>
      before + (TreeText(v) + (after + (if tail.NoItem? then [] else [COMMA] + ItemsText(tail))))
  }

  function PairsText(ms: Pairs): Str
    requires ValidPairs(ms)
  {
    match ms
    case NoPair => []
    case Pair(before, key, mid, space, v, after, tail) =>
      before + (StringText(key) + (mid + ([COLON] + (space + (TreeText(v)
      + (after + (if tail.NoPair? then [] else [COMMA] + PairsText(tail))))))))
  }

  function TreeValue(tree: Tree): JValue
    requires ValidTree(tree)
  {
    match tree
    case Word(v) => v
    case Num(x) => NumberValue(x)
    case Quoted(ps) => JString(PiecesValue(ps))
    case Arr(_, items) => JArray(ItemValues(items))
    case Obj(_, members) => JObject(PairValues(members))
  }

  function ItemValues(items: Items): seq<JValue>
    requires ValidItems(items)
  {
    match items
    case NoItem => []
    case Item(_, v, _, tail) => [TreeValue(v)] + ItemValues(tail)
  }

  function PairValues(ms: Pairs): seq<(Str, JValue)>
    requires ValidPairs(ms)
  {
    match ms
    case NoPair => []
    case Pair(_, key, _, _, v, _, tail) => [(PiecesValue(key), TreeValue(v))] + PairValues(tail)
  }

  // ----- every text of the grammar is scanned

  lemma {:induction false} SkipsGap(t: Str, i: nat, gap: Str, rest: Str)
    requires Gap(gap) && C.Ahead(t, i, gap, rest) && (rest == [] || !IsJsonSpace(rest[0]))
    ensures SkipJson(t, i) == |t| - |rest| == i + |gap|
    decreases |gap|
  {
    assert t[i..] == gap + rest;
    if gap == [] {
      assert i < |t| ==> t[i] == t[i..][0] == rest[0];
    } else {
      assert t[i] == t[i..][0] == gap[0];
      assert t[i + 1..] == t[i..][1..] == gap[1..] + rest;
      SkipsGap(t, i + 1, gap[1..], rest);
    }
  }

  lemma AheadStands(t: Str, i: nat, text: Str, rest: Str)
    requires C.Ahead(t, i, text, rest)
    ensures Stands(t, i, text, |t| - |rest|) && t[|t| - |rest|..] == rest
  {
    assert t[i..][..|text|] == text && t[i..][|text|..] == rest;
  }

  /** The first character of a value: no white space and none of the closing ones. */
  predicate Opens(c: int) {
    !IsJsonSpace(c) && c != CLOSE_BRACKET && c != CLOSE_BRACE && c != COMMA && c != COLON
  }

  lemma WordStarts(v: JValue)
    requires WordText(v).Some?
    ensures WordText(v).value != [] && Opens(WordText(v).value[0])
  {
  }

  lemma NumberStarts(x: Number)
    ensures NumberText(x) != [] && (NumberText(x)[0] == MINUS || IsDigit(NumberText(x)[0]))
  {
    DigitsShape(x.n);
    hide C.Digits;
  }

  lemma TreeStarts(tree: Tree)
    requires ValidTree(tree)
    ensures TreeText(tree) != [] && Opens(TreeText(tree)[0])
  {
    match tree
    case Word(v) => WordStarts(v);
    case Num(x) => NumberStarts(x);
    case _ =>
  }

  lemma WordScans(t: Str, i: nat, v: JValue, rest: Str)
    requires WordText(v).Some? && C.Ahead(t, i, WordText(v).value, rest)
    ensures ScanValue(t, i) == Got(v, |t| - |rest|)
  {
    var w := WordText(v).value;
    AheadStands(t, i, w, rest);
    assert t[i] == t[i..][0] == w[0];
    assert |w| > 1 && t[i + 1] == t[i..][1] == w[1];
    WordShapes(v);
  }

  lemma WordShapes(v: JValue)
    requires WordText(v).Some?
    ensures var w := WordText(v).value;
            && (v == JNull ==> w[0] == 'n' as int) && (v == JBool(true) ==> w[0] == 't' as int)
            && (v == JBool(false) ==> w[0] == 'f' as int)
            && (v == JConstant(Ascii("NaN")) ==> w[0] == 'N' as int)
            && (v == JConstant(Ascii("Infinity")) ==> w[0] == 'I' as int)
            && (v == JConstant(Ascii("-Infinity")) ==> w[0] == MINUS && w[1] == 'I' as int)
  {
  }

  lemma NumScans(t: Str, i: nat, x: Number, rest: Str)
    requires ValidNumber(x) && C.Ahead(t, i, NumberText(x), rest) && Stops(rest)
    ensures ScanValue(t, i) == Got(NumberValue(x), |t| - |rest|)
  {
    hide NumberText, ValidNumber;
    AheadStands(t, i, NumberText(x), rest);
    NumberScans(t, i, x, |t| - |rest|);
    NumberStarts(x);
    assert t[i] == t[i..][0] == NumberText(x)[0];
    assert !At(t, i + 1, 'I' as int) || t[i] != MINUS by {
      if At(t, i, MINUS) {
        NumberNext(t, i, x, rest);
      }
    }
  }

  lemma NumberNext(t: Str, i: nat, x: Number, rest: Str)
    requires C.Ahead(t, i, NumberText(x), rest) && At(t, i, MINUS)
    ensures i + 1 < |t| && IsDigit(t[i + 1])
  {
    DigitsShape(x.n);
    hide C.Digits;
    var s := NumberText(x);
    assert t[i..][0] == s[0];
    assert x.neg;
    assert s[1] == C.Digits(x.n)[0];
    assert t[i + 1] == t[i..][1] == s[1];
  }

  /** White space before a text that does not start with any. */
  lemma GapThen(t: Str, i: nat, gap: Str, x: Str, rest: Str)
    requires Gap(gap) && x != [] && !IsJsonSpace(x[0]) && C.Ahead(t, i, gap + x, rest)
    ensures SkipJson(t, i) == i + |gap| && C.Ahead(t, i + |gap|, x, rest) && At(t, i + |gap|, x[0])
  {
    C.AheadStep(t, i, gap, x, rest);
    SkipsGap(t, i, gap, x + rest);
    C.AheadFirst(t, i + |gap|, x, rest);
  }

  lemma StopsAfter(after: Str, x: Str, rest: Str)
    requires Gap(after) && x != [] && (x[0] == COMMA || x[0] == CLOSE_BRACKET || x[0] == CLOSE_BRACE)
    ensures Stops(after + x + rest)
  {
    assert (after + x + rest)[0] == if after == [] then x[0] else after[0];
  }

  /** A value after white space and before white space and x. */
  lemma ValueBetween(t: Str, i: nat, before: Str, v: Tree, after: Str, x: Str, rest: Str)
    requires Gap(before) && Gap(after) && ValidTree(v)
    requires x != [] && (x[0] == COMMA || x[0] == CLOSE_BRACKET || x[0] == CLOSE_BRACE)
    requires C.Ahead(t, i, before + (TreeText(v) + (after + x)), rest)
    ensures var p, more := i + |before|, after + x + rest;
            var e := |t| - |more|;
            && SkipJson(t, i) == p && C.Ahead(t, p, TreeText(v), more) && Stops(more)
            && e >= 0 && SkipJson(t, e) == e + |after| && C.Ahead(t, e + |after|, x, rest) && At(t, e + |after|, x[0])
  {
    hide TreeText, ValidTree, C.Ahead, SkipJson, Gap, Stops;
    var p := i + |before|;
    TreeStarts(v);
    StopsAfter(after, x, rest);
    GapThen(t, i, before, TreeText(v) + (after + x), rest);
    C.AheadStep(t, p, TreeText(v), after + x, rest);
    GapThen(t, p + |TreeText(v)|, after, x, rest);
  }

  lemma LastElement(t: Str, p: nat)
    requires ScanValue(t, p).Got? && At(t, SkipJson(t, ScanValue(t, p).end), CLOSE_BRACKET)
    ensures ScanElements(t, p) == Elements([ScanValue(t, p).v], SkipJson(t, ScanValue(t, p).end) + 1)
  {
    hide ScanValue, SkipJson;
  }

  lemma NextElement(t: Str, p: nat)
    requires ScanValue(t, p).Got? && At(t, SkipJson(t, ScanValue(t, p).end), COMMA)
    ensures ScanElements(t, p) ==
            AddElement(ScanValue(t, p).v, ScanElements(t, SkipJson(t, SkipJson(t, ScanValue(t, p).end) + 1)))
  {
    hide ScanValue, SkipJson;
  }

  /** MAIN: every text of the grammar that nothing extends is scanned to its value. */
  lemma {:induction false} TreeScans(t: Str, i: nat, tree: Tree, rest: Str)
    requires ValidTree(tree) && C.Ahead(t, i, TreeText(tree), rest) && Stops(rest)
    ensures ScanValue(t, i) == Got(TreeValue(tree), |t| - |rest|)
    decreases tree
  {
    match tree
    case Word(v) => WordScans(t, i, v, rest);
    case Num(x) => NumScans(t, i, x, rest);
    case Quoted(ps) => QuotedScans(t, i, ps, rest);
    case Arr(gap, items) =>
      ArrayOpens(t, i, gap, items, rest);
      if items.Item? {
        ItemsScan(t, i + 1, items, rest);
      }
    case Obj(gap, members) =>
      ObjectOpens(t, i, gap, members, rest);
      if members.Pair? {
        PairsScan(t, i + 1, members, rest);
      }
  }

  lemma QuotedScans(t: Str, i: nat, ps: seq<Piece>, rest: Str)
    requires ValidPieces(ps) && C.Ahead(t, i, StringText(ps), rest)
    ensures At(t, i, QUOTE) && ScanString(t, i + 1) == Body(PiecesValue(ps), |t| - |rest|)
    ensures ScanValue(t, i) == Got(JString(PiecesValue(ps)), |t| - |rest|)
  {
    hide C.Ahead;
    C.AheadStep(t, i, [QUOTE], PiecesText(ps) + [QUOTE], rest);
    C.AheadFirst(t, i, [QUOTE], PiecesText(ps) + [QUOTE] + rest);
    PiecesScan(t, i + 1, ps, rest);
  }

  /** An array: empty, or its elements come next. */
  lemma ArrayOpens(t: Str, i: nat, gap: Str, items: Items, rest: Str)
    requires ValidTree(Arr(gap, items)) && C.Ahead(t, i, TreeText(Arr(gap, items)), rest)
    ensures items.NoItem? ==> ScanValue(t, i) == Got(JArray([]), |t| - |rest|)
    ensures items.Item? ==>
              && C.Ahead(t, i + 1, ItemsText(items) + [CLOSE_BRACKET], rest)
              && ScanValue(t, i) == match ScanElements(t, SkipJson(t, i + 1))
                                    case NoElements => Fail
                                    case Elements(vs, end) => Got(JArray(vs), end)
  {
    hide C.Ahead, ScanElements, SkipJson;
    var x := ItemsText(items) + [CLOSE_BRACKET];
    C.AheadStep(t, i, [OPEN_BRACKET], gap + x, rest);
    C.AheadFirst(t, i, [OPEN_BRACKET], gap + x + rest);
    if items.NoItem? {
      GapThen(t, i + 1, gap, x, rest);
      C.AheadStep(t, i + 1, gap, x, rest);
    } else {
      assert gap + x == x;
      ItemsStart(t, i + 1, items, rest);
    }
  }

  lemma ItemsStart(t: Str, i: nat, items: Items, rest: Str)
    requires items.Item? && ValidItems(items) && C.Ahead(t, i, ItemsText(items) + [CLOSE_BRACKET], rest)
    ensures !At(t, SkipJson(t, i), CLOSE_BRACKET)
  {
    hide TreeText, C.Ahead, ItemsText;
    var x := (if items.tail.NoItem? then [] else [COMMA] + ItemsText(items.tail)) + [CLOSE_BRACKET];
    ItemsSplit(items);
    ValueBetween(t, i, items.before, items.v, items.after, x, rest);
    TreeStarts(items.v);
    C.AheadFirst(t, i + |items.before|, TreeText(items.v), items.after + x + rest);
  }

  /** The text of elements and the bracket, as a value between white space. */
  lemma ItemsSplit(items: Items)
    requires items.Item? && ValidItems(items)
    ensures var x := (if items.tail.NoItem? then [] else [COMMA] + ItemsText(items.tail)) + [CLOSE_BRACKET];
            ItemsText(items) + [CLOSE_BRACKET] == items.before + (TreeText(items.v) + (items.after + x))
  {
    hide TreeText;
  }

  lemma {:induction false} ItemsScan(t: Str, i: nat, items: Items, rest: Str)
    requires items.Item? && ValidItems(items) && C.Ahead(t, i, ItemsText(items) + [CLOSE_BRACKET], rest)
    ensures ScanElements(t, SkipJson(t, i)) == Elements(ItemValues(items), |t| - |rest|)
    decreases items
  {
    hide TreeText, C.Ahead, ItemsText, ScanValue, ScanElements, SkipJson;
    var tail := items.tail;
    var x := (if tail.NoItem? then [] else [COMMA] + ItemsText(tail)) + [CLOSE_BRACKET];
    var more := items.after + x + rest;
    ItemsSplit(items);
    ValueBetween(t, i, items.before, items.v, items.after, x, rest);
    TreeScans(t, i + |items.before|, items.v, more);
    var j := |t| - |more| + |items.after|;
    if tail.NoItem? {
      LastElement(t, i + |items.before|);
      assert j + 1 == |t| - |rest|;
    } else {
      NextElement(t, i + |items.before|);
      var y := ItemsText(tail) + [CLOSE_BRACKET];
      assert x == [COMMA] + y;
      C.AheadStep(t, j, [COMMA], y, rest);
      ItemsScan(t, j + 1, tail, rest);
    }
  }

  // ----- objects

  lemma ObjectOpens(t: Str, i: nat, gap: Str, ms: Pairs, rest: Str)
    requires ValidTree(Obj(gap, ms)) && C.Ahead(t, i, TreeText(Obj(gap, ms)), rest)
    ensures ms.NoPair? ==> ScanValue(t, i) == Got(JObject([]), |t| - |rest|)
    ensures ms.Pair? ==>
              && C.Ahead(t, i + 1, PairsText(ms) + [CLOSE_BRACE], rest)
              && ScanValue(t, i) == match ScanMembers(t, SkipJson(t, i + 1))
                                    case NoMembers => Fail
                                    case Members(vs, end) => Got(JObject(vs), end)
  {
    hide C.Ahead, ScanMembers, SkipJson, Gap;
    var x := PairsText(ms) + [CLOSE_BRACE];
    C.AheadStep(t, i, [OPEN_BRACE], gap + x, rest);
    C.AheadFirst(t, i, [OPEN_BRACE], gap + x + rest);
    if ms.NoPair? {
      GapThen(t, i + 1, gap, x, rest);
      C.AheadStep(t, i + 1, gap, x, rest);
    } else {
      assert gap + x == x;
      PairsStart(t, i + 1, ms, rest);
    }
  }

  /** What follows the key of the first pair, up to the closing brace. */
  function AfterKey(ms: Pairs): Str
    requires ms.Pair? && ValidPairs(ms)
  {
    ms.mid + ([COLON] + (ms.space + (TreeText(ms.v) + (ms.after + AfterPair(ms)))))
  }

  function AfterPair(ms: Pairs): Str
    requires ms.Pair? && ValidPairs(ms)
  {
    (if ms.tail.NoPair? then [] else [COMMA] + PairsText(ms.tail)) + [CLOSE_BRACE]
  }

  lemma PairsSplit(ms: Pairs)
    requires ms.Pair? && ValidPairs(ms)
    ensures PairsText(ms) + [CLOSE_BRACE] == ms.before + (StringText(ms.key) + AfterKey(ms))
  {
    hide TreeText, StringText;
    var a := if ms.tail.NoPair? then [] else [COMMA] + PairsText(ms.tail);
    var v := TreeText(ms.v);
    assert PairsText(ms) == ms.before + (StringText(ms.key) + (ms.mid + ([COLON] + (ms.space + (v + (ms.after + a))))));
    assert v + (ms.after + a) + [CLOSE_BRACE] == v + (ms.after + (a + [CLOSE_BRACE]));
  }

  lemma PairsStart(t: Str, i: nat, ms: Pairs, rest: Str)
    requires ms.Pair? && ValidPairs(ms) && C.Ahead(t, i, PairsText(ms) + [CLOSE_BRACE], rest)
    ensures SkipJson(t, i) == i + |ms.before| && At(t, i + |ms.before|, QUOTE)
    ensures C.Ahead(t, i + |ms.before|, StringText(ms.key) + AfterKey(ms), rest)
  {
    hide C.Ahead, PairsText, AfterKey;
    PairsSplit(ms);
    GapThen(t, i, ms.before, StringText(ms.key) + AfterKey(ms), rest);
  }

  /** The colon after a key, up to the value. */
  lemma ColonReads(t: Str, e: nat, ms: Pairs, rest: Str)
    requires ms.Pair? && ValidPairs(ms) && C.Ahead(t, e, AfterKey(ms), rest)
    ensures var c := e + |ms.mid|;
            && SkipJson(t, e) == c && At(t, c, COLON)
            && C.Ahead(t, c + 1, ms.space + (TreeText(ms.v) + (ms.after + AfterPair(ms))), rest)
  {
    hide C.Ahead, PairsText, TreeText, SkipJson;
    var x := ms.space + (TreeText(ms.v) + (ms.after + AfterPair(ms)));
    GapThen(t, e, ms.mid, [COLON] + x, rest);
    C.AheadStep(t, e + |ms.mid|, [COLON], x, rest);
  }

  lemma KeyOf(t: Str, p: nat, key: Str, e: nat)
    requires At(t, p, QUOTE) && ScanString(t, p + 1) == Body(key, e) && e <= |t| && At(t, SkipJson(t, e), COLON)
    ensures ScanKey(t, p) == Body(key, SkipJson(t, SkipJson(t, e) + 1))
  {
    hide ScanString, SkipJson;
  }

  /** A key and its colon, up to the value. */
  lemma KeyReads(t: Str, p: nat, ms: Pairs, rest: Str) returns (start: nat)
    requires ms.Pair? && ValidPairs(ms) && C.Ahead(t, p, StringText(ms.key) + AfterKey(ms), rest)
    ensures ScanKey(t, p) == Body(PiecesValue(ms.key), start)
    ensures C.Ahead(t, start, TreeText(ms.v), ms.after + AfterPair(ms) + rest) && Stops(ms.after + AfterPair(ms) + rest)
    ensures var e := |t| - |ms.after + AfterPair(ms) + rest|;
            e >= 0 && SkipJson(t, e) == e + |ms.after| && C.Ahead(t, e + |ms.after|, AfterPair(ms), rest)
            && At(t, e + |ms.after|, AfterPair(ms)[0])
  {
    hide C.Ahead, PairsText, TreeText, StringText, SkipJson, ScanString, ScanKey, AfterKey, Stops;
    var e := p + |StringText(ms.key)|;
    C.AheadStep(t, p, StringText(ms.key), AfterKey(ms), rest);
    QuotedScans(t, p, ms.key, AfterKey(ms) + rest);
    ColonReads(t, e, ms, rest);
    KeyOf(t, p, PiecesValue(ms.key), e);
    ValueBetween(t, e + |ms.mid| + 1, ms.space, ms.v, ms.after, AfterPair(ms), rest);
    start := e + |ms.mid| + 1 + |ms.space|;
  }

  lemma MemberOf(t: Str, p: nat, key: Str, start: nat)
    requires ScanKey(t, p) == Body(key, start) && ScanValue(t, start).Got?
    ensures ScanMember(t, p) == Member(key, ScanValue(t, start).v, ScanValue(t, start).end)
  {
    hide ScanKey, ScanValue;
  }

  lemma LastMember(t: Str, p: nat)
    requires ScanMember(t, p).Member? && At(t, SkipJson(t, ScanMember(t, p).end), CLOSE_BRACE)
    ensures var m := ScanMember(t, p); ScanMembers(t, p) == Members([(m.key, m.v)], SkipJson(t, m.end) + 1)
  {
    hide ScanMember, SkipJson;
  }

  lemma NextMember(t: Str, p: nat)
    requires ScanMember(t, p).Member? && At(t, SkipJson(t, ScanMember(t, p).end), COMMA)
    ensures var m := ScanMember(t, p);
            ScanMembers(t, p) == AddMember(m.key, m.v, ScanMembers(t, SkipJson(t, SkipJson(t, m.end) + 1)))
  {
    hide ScanMember, SkipJson;
  }

  lemma {:induction false} PairsScan(t: Str, i: nat, ms: Pairs, rest: Str)
    requires ms.Pair? && ValidPairs(ms) && C.Ahead(t, i, PairsText(ms) + [CLOSE_BRACE], rest)
    ensures ScanMembers(t, SkipJson(t, i)) == Members(PairValues(ms), |t| - |rest|)
    decreases ms
  {
    hide TreeText, StringText, C.Ahead, PairsText, ScanValue, ScanMembers, ScanMember, ScanKey, SkipJson;
    var p := i + |ms.before|;
    PairsStart(t, i, ms, rest);
    var start := KeyReads(t, p, ms, rest);
    var more := ms.after + AfterPair(ms) + rest;
    TreeScans(t, start, ms.v, more);
    MemberOf(t, p, PiecesValue(ms.key), start);
    var j := |t| - |more| + |ms.after|;
    if ms.tail.NoPair? {
      LastMember(t, p);
    } else {
      NextMember(t, p);
      var y := PairsText(ms.tail) + [CLOSE_BRACE];
      assert AfterPair(ms) == [COMMA] + y;
      C.AheadStep(t, j, [COMMA], y, rest);
      PairsScan(t, j + 1, ms.tail, rest);
    }
  }

  // ----- and nothing else is

  lemma {:induction false} SkippedIsGap(s: Str, i: nat)
    requires i <= |s|
    ensures Gap(s[i..SkipJson(s, i)])
    decreases |s| - i
  {
    if i < |s| && IsJsonSpace(s[i]) {
      SkippedIsGap(s, i + 1);
      assert s[i..SkipJson(s, i)] == [s[i]] + s[i + 1..SkipJson(s, i)];
    }
  }

  lemma WordSound(s: Str, i: nat) returns (tree: Tree)
    requires i < |s| && ScanAtom(s, i).Got? && !IsNumber(ScanAtom(s, i).v)
    ensures ValidTree(tree) && Stands(s, i, TreeText(tree), ScanAtom(s, i).end) && ScanAtom(s, i).v == TreeValue(tree)
  {
    tree := Word(ScanAtom(s, i).v);
  }

  lemma AtomSound(s: Str, i: nat) returns (tree: Tree)
    requires i < |s| && ScanAtom(s, i).Got?
    ensures ValidTree(tree) && Stands(s, i, TreeText(tree), ScanAtom(s, i).end) && ScanAtom(s, i).v == TreeValue(tree)
  {
    hide ScanNumber, NumberText, ValidNumber;
    if IsNumber(ScanAtom(s, i).v) {
      var x := NumberSound(s, i);
      tree := Num(x);
    } else {
      tree := WordSound(s, i);
    }
  }

  lemma QuotedSound(s: Str, i: nat) returns (ps: seq<Piece>)
    requires At(s, i, QUOTE) && ScanString(s, i + 1).Body?
    ensures ValidPieces(ps) && Stands(s, i, StringText(ps), ScanString(s, i + 1).end)
    ensures ScanString(s, i + 1).text == PiecesValue(ps)
  {
    ps := StringSound(s, i + 1);
    SplitText(s, i, i + 1, ScanString(s, i + 1).end);
    assert s[i..i + 1] == [QUOTE];
  }

  /** A bracket, white space, and what stands behind them. */
  lemma Opened(s: Str, i: nat, j: nat, x: Str, e: nat)
    requires i < j <= |s| && Stands(s, j, x, e)
    ensures Stands(s, i, [s[i]] + (s[i + 1..j] + x), e)
  {
    SplitText(s, i + 1, j, e);
    SplitText(s, i, i + 1, e);
    assert s[i..i + 1] == [s[i]];
  }

  lemma ItemsWith(items: Items, gap: Str)
    requires items.Item? && items.before == [] && ValidItems(items) && Gap(gap)
    ensures ValidItems(items.(before := gap)) && ItemsText(items.(before := gap)) == gap + ItemsText(items)
    ensures ItemValues(items.(before := gap)) == ItemValues(items)
  {
    hide TreeText, ValidTree;
  }

  lemma PairsWith(ms: Pairs, gap: Str)
    requires ms.Pair? && ms.before == [] && ValidPairs(ms) && Gap(gap)
    ensures ValidPairs(ms.(before := gap)) && PairsText(ms.(before := gap)) == gap + PairsText(ms)
    ensures PairValues(ms.(before := gap)) == PairValues(ms)
  {
    hide TreeText, ValidTree, StringText;
  }

  lemma ArrayStands(s: Str, i: nat, j: nat, items: Items, e: nat) returns (tree: Tree)
    requires i < j <= |s| && s[i] == OPEN_BRACKET && Gap(s[i + 1..j])
    requires items.Item? && items.before == [] && ValidItems(items) && Stands(s, j, ItemsText(items) + [CLOSE_BRACKET], e)
    ensures ValidTree(tree) && Stands(s, i, TreeText(tree), e) && TreeValue(tree) == JArray(ItemValues(items))
  {
    hide ItemsText, ValidItems, ItemValues, Stands, TreeText, ValidTree, TreeValue;
    tree := Arr([], items.(before := s[i + 1..j]));
    ArrayOf(items, s[i + 1..j]);
    Opened(s, i, j, ItemsText(items) + [CLOSE_BRACKET], e);
  }

  lemma ArrayOf(items: Items, gap: Str)
    requires items.Item? && items.before == [] && ValidItems(items) && Gap(gap)
    ensures var tree := Arr([], items.(before := gap));
            && ValidTree(tree) && TreeText(tree) == [OPEN_BRACKET] + (gap + (ItemsText(items) + [CLOSE_BRACKET]))
            && TreeValue(tree) == JArray(ItemValues(items))
  {
    hide ItemsText, ValidItems, ItemValues;
    ItemsWith(items, gap);
    assert [] + (gap + ItemsText(items) + [CLOSE_BRACKET]) == gap + (ItemsText(items) + [CLOSE_BRACKET]);
  }

  lemma ObjectStands(s: Str, i: nat, j: nat, ms: Pairs, e: nat) returns (tree: Tree)
    requires i < j <= |s| && s[i] == OPEN_BRACE && Gap(s[i + 1..j])
    requires ms.Pair? && ms.before == [] && ValidPairs(ms) && Stands(s, j, PairsText(ms) + [CLOSE_BRACE], e)
    ensures ValidTree(tree) && Stands(s, i, TreeText(tree), e) && TreeValue(tree) == JObject(PairValues(ms))
  {
    hide PairsText, ValidPairs, PairValues, Stands, TreeText, ValidTree, TreeValue;
    tree := Obj([], ms.(before := s[i + 1..j]));
    ObjectOf(ms, s[i + 1..j]);
    Opened(s, i, j, PairsText(ms) + [CLOSE_BRACE], e);
  }

  lemma ObjectOf(ms: Pairs, gap: Str)
    requires ms.Pair? && ms.before == [] && ValidPairs(ms) && Gap(gap)
    ensures var tree := Obj([], ms.(before := gap));
            && ValidTree(tree) && TreeText(tree) == [OPEN_BRACE] + (gap + (PairsText(ms) + [CLOSE_BRACE]))
            && TreeValue(tree) == JObject(PairValues(ms))
  {
    hide PairsText, ValidPairs, PairValues;
    PairsWith(ms, gap);
    assert [] + (gap + PairsText(ms) + [CLOSE_BRACE]) == gap + (PairsText(ms) + [CLOSE_BRACE]);
  }

  /** An empty array or object. */
  lemma EmptyStands(s: Str, i: nat, j: nat) returns (tree: Tree)
    requires i < j < |s| && Gap(s[i + 1..j])
    requires (s[i] == OPEN_BRACKET && s[j] == CLOSE_BRACKET) || (s[i] == OPEN_BRACE && s[j] == CLOSE_BRACE)
    ensures ValidTree(tree) && Stands(s, i, TreeText(tree), j + 1)
    ensures TreeValue(tree) == if s[i] == OPEN_BRACKET then JArray([]) else JObject([])
  {
    var gap := s[i + 1..j];
    tree := if s[i] == OPEN_BRACKET then Arr(gap, NoItem) else Obj(gap, NoPair);
    assert s[j..j + 1] == [s[j]];
    Opened(s, i, j, [s[j]], j + 1);
    assert TreeText(tree) == [s[i]] + (gap + [s[j]]);
  }

  /** MAIN: what the scanner takes is a text of the grammar, and its value is that text's. */
  lemma {:induction false} TreeSound(s: Str, i: nat) returns (tree: Tree)
    requires ScanValue(s, i).Got?
    ensures ValidTree(tree) && Stands(s, i, TreeText(tree), ScanValue(s, i).end) && ScanValue(s, i).v == TreeValue(tree)
    decreases |s| - i, 3
  {
    hide ScanAtom, ScanString, Stands, StringText, Gap, ItemsText, PairsText, ValidItems, ValidPairs, ItemValues, PairValues;
    if s[i] == QUOTE {
      var ps := QuotedSound(s, i);
      tree := Quoted(ps);
    } else if s[i] == OPEN_BRACE || s[i] == OPEN_BRACKET {
      var j := SkipJson(s, i + 1);
      SkippedIsGap(s, i + 1);
      if At(s, j, if s[i] == OPEN_BRACE then CLOSE_BRACE else CLOSE_BRACKET) {
        tree := EmptyStands(s, i, j);
      } else if s[i] == OPEN_BRACE {
        var ms := PairsSound(s, j);
        tree := ObjectStands(s, i, j, ms, ScanValue(s, i).end);
      } else {
        var items := ItemsSound(s, j);
        tree := ArrayStands(s, i, j, items, ScanValue(s, i).end);
      }
    } else {
      tree := AtomSound(s, i);
    }
  }

  /** The last element of an array, or one before a comma. */
  lemma ItemStands(s: Str, i: nat, v: Tree, e: nat, j: nat, tail: Items, x: Str, end: nat) returns (items: Items)
    requires ValidTree(v) && ValidItems(tail) && Stands(s, i, TreeText(v), e) && e <= j <= |s| && Gap(s[e..j])
    requires Stands(s, j, x, end)
    requires x == (if tail.NoItem? then [] else [COMMA] + ItemsText(tail)) + [CLOSE_BRACKET]
    ensures items.Item? && items.before == [] && ValidItems(items)
    ensures Stands(s, i, ItemsText(items) + [CLOSE_BRACKET], end)
    ensures ItemValues(items) == [TreeValue(v)] + ItemValues(tail)
  {
    hide TreeText, ValidTree, TreeValue;
    items := Item([], v, s[e..j], tail);
    SplitText(s, e, j, end);
    SplitText(s, i, e, end);
    ItemsSplit(items);
    assert Gap([]);
  }

  /** The elements behind a comma and white space. */
  lemma MoreItems(s: Str, j: nat, k: nat, more: Items, end: nat) returns (tail: Items)
    requires j < k <= |s| && s[j] == COMMA && Gap(s[j + 1..k])
    requires more.Item? && more.before == [] && ValidItems(more) && Stands(s, k, ItemsText(more) + [CLOSE_BRACKET], end)
    ensures tail.Item? && ValidItems(tail) && ItemValues(tail) == ItemValues(more)
    ensures Stands(s, j, [COMMA] + ItemsText(tail) + [CLOSE_BRACKET], end)
  {
    hide Gap, ItemsText, ValidItems, ItemValues, Stands;
    tail := more.(before := s[j + 1..k]);
    ItemsWith(more, s[j + 1..k]);
    Opened(s, j, k, ItemsText(more) + [CLOSE_BRACKET], end);
    assert [COMMA] + ItemsText(tail) + [CLOSE_BRACKET] == [s[j]] + (s[j + 1..k] + (ItemsText(more) + [CLOSE_BRACKET]));
  }

  lemma {:induction false} ItemsSound(s: Str, i: nat) returns (items: Items)
    requires ScanElements(s, i).Elements?
    ensures items.Item? && items.before == [] && ValidItems(items)
    ensures Stands(s, i, ItemsText(items) + [CLOSE_BRACKET], ScanElements(s, i).end)
    ensures ScanElements(s, i).vs == ItemValues(items)
    decreases |s| - i, 4
  {
    hide ScanValue, Gap, TreeText, ValidTree, TreeValue, ItemsText, ValidItems, Stands;
    var v := TreeSound(s, i);
    var e := ScanValue(s, i).end;
    var j := SkipJson(s, e);
    SkippedIsGap(s, e);
    if At(s, j, CLOSE_BRACKET) {
      NothingAfter();
      OneStands(s, j);
      items := ItemStands(s, i, v, e, j, NoItem, [CLOSE_BRACKET], j + 1);
    } else {
      var k := SkipJson(s, j + 1);
      SkippedIsGap(s, j + 1);
      var more := ItemsSound(s, k);
      var end := ScanElements(s, k).end;
      var tail := MoreItems(s, j, k, more, end);
      items := ItemStands(s, i, v, e, j, tail, [COMMA] + ItemsText(tail) + [CLOSE_BRACKET], end);
    }
  }

  lemma NothingAfter()
    ensures ItemsText(NoItem) == [] && PairsText(NoPair) == [] && ValidItems(NoItem) && ValidPairs(NoPair)
    ensures ItemValues(NoItem) == [] && PairValues(NoPair) == []
  {
  }

  lemma OneStands(s: Str, j: nat)
    requires j < |s|
    ensures Stands(s, j, [s[j]], j + 1)
  {
  }

  /** A pair, the last of its object or before a comma. */
  lemma PairStands(s: Str, i: nat, key: seq<Piece>, q: nat, c: nat, start: nat, v: Tree, e: nat, j: nat,
                   tail: Pairs, x: Str, end: nat) returns (ms: Pairs)
    requires ValidPieces(key) && ValidTree(v) && ValidPairs(tail)
    requires Stands(s, i, StringText(key), q) && q <= c < start <= |s| && Gap(s[q..c]) && s[c] == COLON && Gap(s[c + 1..start])
    requires Stands(s, start, TreeText(v), e) && e <= j <= |s| && Gap(s[e..j]) && Stands(s, j, x, end)
    requires x == (if tail.NoPair? then [] else [COMMA] + PairsText(tail)) + [CLOSE_BRACE]
    ensures ms.Pair? && ms.before == [] && ValidPairs(ms)
    ensures Stands(s, i, PairsText(ms) + [CLOSE_BRACE], end)
    ensures PairValues(ms) == [(PiecesValue(key), TreeValue(v))] + PairValues(tail)
  {
    hide TreeText, ValidTree, TreeValue, StringText, PairsText, ValidPieces;
    ms := Pair([], key, s[q..c], s[c + 1..start], v, s[e..j], tail);
    assert Gap([]);
    PairsSplit(ms);
    PairPlaces(s, i, key, q, c, start, v, e, j, x, end);
    assert [] + (StringText(key) + AfterKey(ms)) == StringText(key) + AfterKey(ms);
  }

  lemma PairPlaces(s: Str, i: nat, key: seq<Piece>, q: nat, c: nat, start: nat, v: Tree, e: nat, j: nat, x: Str, end: nat)
    requires ValidPieces(key) && ValidTree(v)
    requires Stands(s, i, StringText(key), q) && q <= c < start <= |s| && s[c] == COLON
    requires Stands(s, start, TreeText(v), e) && e <= j <= |s| && Stands(s, j, x, end)
    ensures Stands(s, i, StringText(key) + (s[q..c] + ([COLON] + (s[c + 1..start] + (TreeText(v) + (s[e..j] + x))))), end)
  {
    hide TreeText, ValidTree, StringText, ValidPieces;
    SplitText(s, e, j, end);
    SplitText(s, start, e, end);
    SplitText(s, c + 1, start, end);
    SplitText(s, c, c + 1, end);
    assert s[c..c + 1] == [COLON];
    SplitText(s, q, c, end);
    SplitText(s, i, q, end);
  }

  lemma MemberParts(s: Str, i: nat) returns (key: seq<Piece>, q: nat, c: nat, start: nat)
    requires ScanMember(s, i).Member?
    ensures ValidPieces(key) && Stands(s, i, StringText(key), q) && q <= c < start <= |s|
    ensures Gap(s[q..c]) && s[c] == COLON && Gap(s[c + 1..start]) && i < start
    ensures ScanValue(s, start).Got? && ScanMember(s, i) == Member(PiecesValue(key), ScanValue(s, start).v, ScanValue(s, start).end)
  {
    hide ScanValue, ScanString, StringText, Gap;
    key := QuotedSound(s, i);
    q := ScanString(s, i + 1).end;
    c := SkipJson(s, q);
    start := SkipJson(s, c + 1);
    SkippedIsGap(s, q);
    SkippedIsGap(s, c + 1);
  }

  lemma MorePairs(s: Str, j: nat, k: nat, more: Pairs, end: nat) returns (tail: Pairs)
    requires j < k <= |s| && s[j] == COMMA && Gap(s[j + 1..k])
    requires more.Pair? && more.before == [] && ValidPairs(more) && Stands(s, k, PairsText(more) + [CLOSE_BRACE], end)
    ensures tail.Pair? && ValidPairs(tail) && PairValues(tail) == PairValues(more)
    ensures Stands(s, j, [COMMA] + PairsText(tail) + [CLOSE_BRACE], end)
  {
    hide Gap, PairsText, ValidPairs, PairValues, Stands;
    tail := more.(before := s[j + 1..k]);
    PairsWith(more, s[j + 1..k]);
    Opened(s, j, k, PairsText(more) + [CLOSE_BRACE], end);
    assert [COMMA] + PairsText(tail) + [CLOSE_BRACE] == [s[j]] + (s[j + 1..k] + (PairsText(more) + [CLOSE_BRACE]));
  }

  lemma {:induction false} PairsSound(s: Str, i: nat) returns (ms: Pairs)
    requires ScanMembers(s, i).Members?
    ensures ms.Pair? && ms.before == [] && ValidPairs(ms)
    ensures Stands(s, i, PairsText(ms) + [CLOSE_BRACE], ScanMembers(s, i).end)
    ensures ScanMembers(s, i).ms == PairValues(ms)
    decreases |s| - i, 5
  {
    hide ScanValue, ScanMember, Gap, TreeText, ValidTree, TreeValue, PairsText, StringText, ValidPieces, ValidPairs, Stands;
    var key, q, c, start := MemberParts(s, i);
    var v := TreeSound(s, start);
    var e := ScanValue(s, start).end;
    var j := SkipJson(s, e);
    SkippedIsGap(s, e);
    if At(s, j, CLOSE_BRACE) {
      NothingAfter();
      OneStands(s, j);
      ms := PairStands(s, i, key, q, c, start, v, e, j, NoPair, [CLOSE_BRACE], j + 1);
    } else {
      var k := SkipJson(s, j + 1);
      SkippedIsGap(s, j + 1);
      var more := PairsSound(s, k);
      var end := ScanMembers(s, k).end;
      var tail := MorePairs(s, j, k, more, end);
      ms := PairStands(s, i, key, q, c, start, v, e, j, tail, [COMMA] + PairsText(tail) + [CLOSE_BRACE], end);
    }
  }

  // ----- `json.loads`

  /** A text of the grammar: an object with white space around it. */
  predicate ObjectText(s: Str, before: Str, gap: Str, members: Pairs, after: Str) {
    && Gap(before) && Gap(after) && ValidTree(Obj(gap, members))
    && s == before + (TreeText(Obj(gap, members)) + after)
  }

  /** ms are the members of that object. */
  predicate LoadsAs(s: Str, ms: seq<(Str, JValue)>, before: Str, gap: Str, members: Pairs, after: Str) {
    ObjectText(s, before, gap, members, after) && ms == PairValues(members)
  }

  /** MAIN: `json.loads` takes a text for an object if and only if the grammar has it as one, and
      yields the members the grammar gives it. */
  lemma LoadsExactly(s: Str, ms: seq<(Str, JValue)>)
    ensures LoadsObject(s) == Some(ms) <==>
            exists before, gap, members, after :: LoadsAs(s, ms, before, gap, members, after)
  {
    hide ScanValue, ValidTree, TreeText, PairValues;
    if LoadsObject(s) == Some(ms) {
      var i := SkipJson(s, 0);
      var e := ScanValue(s, i).end;
      var tree := TreeSound(s, i);
      SkippedIsGap(s, 0);
      SkippedIsGap(s, e);
      IsObject(tree);
      SplitText(s, 0, i, |s|);
      SplitText(s, i, e, |s|);
      assert s[0..|s|] == s;
      assert LoadsAs(s, ms, s[0..i], tree.gap, tree.members, s[e..|s|]);
    }
    if before, gap, members, after :| LoadsAs(s, ms, before, gap, members, after) {
      ObjectTextLoads(s, before, gap, members, after);
    }
  }

  lemma IsObject(tree: Tree)
    requires ValidTree(tree) && TreeValue(tree).JObject?
    ensures tree.Obj? && TreeValue(tree).members == PairValues(tree.members)
  {
    hide WordText;
    match tree
    case Word(v) => WordIsNoObject(v);
    case _ =>
  }

  lemma WordIsNoObject(v: JValue)
    requires WordText(v).Some?
    ensures !v.JObject?
  {
  }

  lemma ObjectTextLoads(s: Str, before: Str, gap: Str, members: Pairs, after: Str)
    requires ObjectText(s, before, gap, members, after)
    ensures LoadsObject(s) == Some(PairValues(members))
  {
    hide ScanValue, TreeText, ValidTree, TreeValue, Gap, SkipJson;
    var tree := Obj(gap, members);
    TreeAlone(s, before, tree, after);
    ObjectValue(gap, members);
  }

  lemma ObjectValue(gap: Str, members: Pairs)
    requires ValidTree(Obj(gap, members))
    ensures TreeValue(Obj(gap, members)) == JObject(PairValues(members))
  {
  }

  /** A value alone in its text, with white space around it. */
  lemma TreeAlone(s: Str, before: Str, tree: Tree, after: Str)
    requires Gap(before) && Gap(after) && ValidTree(tree) && s == before + (TreeText(tree) + after)
    ensures ScanValue(s, SkipJson(s, 0)) == Got(TreeValue(tree), |s| - |after|)
    ensures SkipJson(s, |s| - |after|) == |s|
  {
    hide ScanValue, ValidTree, TreeValue, TreeText, Gap, C.Ahead, SkipJson, Stops;
    TreeStarts(tree);
    TextAlone(s, before, TreeText(tree), after);
    SpaceStops(after);
    TreeScans(s, |before|, tree, after);
  }

  lemma TextAlone(s: Str, before: Str, text: Str, after: Str)
    requires Gap(before) && Gap(after) && text != [] && !IsJsonSpace(text[0]) && s == before + (text + after)
    ensures SkipJson(s, 0) == |before| && C.Ahead(s, |before|, text, after) && SkipJson(s, |s| - |after|) == |s|
  {
    hide SkipJson, Gap;
    assert s[0..] == before + (text + after) + [];
    GapThen(s, 0, before, text + after, []);
    assert s[|before|..] == text + after;
    assert s[|s| - |after|..] == after + [];
    SkipsGap(s, |s| - |after|, after, []);
  }

  lemma SpaceStops(after: Str)
    requires Gap(after)
    ensures Stops(after)
  {
  }
}
