/** Lexical scores and the lexical-only ranking of ctx.py, over the reals. Tokenisation, the
    logarithm and the square root are taken from outside. */
module Ranking {
  import Selector

  const WEIGHT_SYMBOL: real := 3.0
  const WEIGHT_PATH: real := 2.0
  const WEIGHT_BODY: real := 1.0
  const LENGTH_NORM_B: real := 0.75
  const LEXICAL_WEIGHT: real := 0.75
  const META_WEIGHT: real := 0.25
  const MIN_SYMBOL_TOKENS_FOR_CITATION := 2

  datatype Role = Source | Test | Doc | Migration

  /** What scoring sees of a chunk: its lexicon, the tokens of its symbol and of its path, and
      its place in the file. */
  datatype Chunk = Chunk(terms: set<string>, symbolTokens: set<string>, pathTokens: set<string>,
                         role: Role, path: string, start: int, end: int)

  /** How the query text as a whole meets the chunk's symbol and path. */
  datatype Mention = Mention(queryInSymbol: bool, symbolInQuery: bool, queryInPath: bool)

  datatype Maths = Maths(log: real -> real, root: real -> real)

  ghost predicate MathsLaws(m: Maths) {
    && m.log(1.0) == 0.0 && (forall x: real, y: real :: 1.0 <= x < y ==> m.log(x) < m.log(y))
    && (forall x: real :: x >= 0.0 ==> m.root(x) >= 0.0 && m.root(x) * m.root(x) == x)
  }

  // ----- sums over terms

  ghost function Sum(s: set<string>, w: string -> real): real {
    if s == {} then 0.0
    else
      var t :| t in s;
      w(t) + Sum(s - {t}, w)
  }

  lemma {:induction false} SumRemove(s: set<string>, w: string -> real, t: string)
    requires t in s
    ensures Sum(s, w) == w(t) + Sum(s - {t}, w)
    decreases |s|
  {
    var u :| u in s && Sum(s, w) == w(u) + Sum(s - {u}, w);
    if u != t {
      SumRemove(s - {u}, w, t);
      SumRemove(s - {t}, w, u);
      assert s - {u} - {t} == s - {t} - {u};
    }
  }

  lemma {:induction false} SumUnion(a: set<string>, b: set<string>, w: string -> real)
    requires a !! b
    ensures Sum(a + b, w) == Sum(a, w) + Sum(b, w)
    decreases |a|
  {
    if a == {} {
      assert a + b == b;
    } else {
      var t :| t in a;
      SumRemove(a + b, w, t);
      SumRemove(a, w, t);
      assert (a + b) - {t} == (a - {t}) + b;
      SumUnion(a - {t}, b, w);
    }
  }

  lemma {:induction false} SumPositive(s: set<string>, w: string -> real)
    requires forall t :: t in s ==> w(t) > 0.0
    ensures Sum(s, w) >= 0.0 && (Sum(s, w) == 0.0 <==> s == {})
    decreases |s|
  {
    if s != {} {
      var t :| t in s;
      SumRemove(s, w, t);
      SumPositive(s - {t}, w);
    }
  }

  // ----- inverse document frequency

  /** `df`: in how many lexicons the term occurs. */
  function Frequency(chunks: seq<Chunk>, t: string): (n: nat)
    ensures n <= |chunks|
  {
    if chunks == [] then 0
    else Frequency(chunks[..|chunks| - 1], t) + (if t in chunks[|chunks| - 1].terms then 1 else 0)
  }

  function Idf(m: Maths, chunks: seq<Chunk>, t: string): real {
    var n := if |chunks| >= 1 then |chunks| else 1;
    var df := Frequency(chunks, t);
    m.log(1.0 + ((n - df) as real + 0.5) / (df as real + 0.5))
  }

  /** No term of the query weighs nothing, however common it is. */
  lemma IdfPositive(m: Maths, chunks: seq<Chunk>, t: string)
    requires MathsLaws(m)
    ensures Idf(m, chunks, t) > 0.0
  {
    var n := if |chunks| >= 1 then |chunks| else 1;
    var df := Frequency(chunks, t);
    Quotient((n - df) as real + 0.5, df as real + 0.5);
  }

  lemma Quotient(a: real, b: real)
    requires a > 0.0 && b > 0.0
    ensures a / b > 0.0
    ensures a <= b ==> a / b <= 1.0
    ensures a / b == 1.0 <==> a == b
  {
    assert a / b * b == a;
  }

  function Weights(m: Maths, chunks: seq<Chunk>): string -> real {
    t => Idf(m, chunks, t)
  }

  // ----- one chunk's score

  function TermCount(chunks: seq<Chunk>): nat {
    if chunks == [] then 0 else TermCount(chunks[..|chunks| - 1]) + |chunks[|chunks| - 1].terms|
  }

  function AverageLength(chunks: seq<Chunk>): (r: real)
    ensures r >= 1.0
  {
    var mean := if chunks == [] then 1.0 else TermCount(chunks) as real / |chunks| as real;
    if mean >= 1.0 then mean else 1.0
  }

  function InSymbol(c: Chunk, q: set<string>): set<string> {
    q * c.terms * c.symbolTokens
  }

  function InPath(c: Chunk, q: set<string>): set<string> {
    q * c.terms * c.pathTokens - InSymbol(c, q)
  }

  function InBody(c: Chunk, q: set<string>): set<string> {
    q * c.terms - InSymbol(c, q) - InPath(c, q)
  }

  function SymbolFocus(m: Maths, c: Chunk, q: set<string>): real {
    if c.symbolTokens == {} then 1.0
    else m.root(|InSymbol(c, q)| as real / |c.symbolTokens| as real)
  }

  function LengthNorm(c: Chunk, average: real): real
    requires average >= 1.0
  {
    var d := 1.0 - LENGTH_NORM_B + LENGTH_NORM_B * |c.terms| as real / average;
    assert LENGTH_NORM_B * |c.terms| as real >= 0.0;
    assert LENGTH_NORM_B * |c.terms| as real / average >= 0.0;
    if 1.0 / d <= 1.0 then 1.0 / d else 1.0
  }

  /** The weight of the whole query; the source falls back to 1 on a zero sum. */
  function Denominator(sum: real): real {
    (if sum == 0.0 then 1.0 else sum) * WEIGHT_SYMBOL
  }

  ghost function Score(m: Maths, chunks: seq<Chunk>, q: set<string>, c: Chunk): real {
    if q == {} || q * c.terms == {} then 0.0
    else
      var w := Weights(m, chunks);
      var d := Denominator(Sum(q, w));
      if d == 0.0 then 0.0
      else Total(SymbolFocus(m, c, q), LengthNorm(c, AverageLength(chunks)),
                 Sum(InSymbol(c, q), w), Sum(InPath(c, q), w), Sum(InBody(c, q), w)) / d
  }

  function Total(focus: real, norm: real, symbol: real, path: real, body: real): real {
    WEIGHT_SYMBOL * focus * symbol + WEIGHT_PATH * path + WEIGHT_BODY * norm * body
  }

  method SumTerms(s: set<string>, w: string -> real) returns (r: real)
    ensures r == Sum(s, w)
  {
    r := 0.0;
    var rest := s;
    while rest != {}
      invariant r + Sum(rest, w) == Sum(s, w)
      decreases |rest|
    {
      var t :| t in rest;
      SumRemove(rest, w, t);
      r, rest := r + w(t), rest - {t};
    }
  }

  /** `lexical_scores`: chunks that match no term keep their 0. */
  method LexicalScores(m: Maths, chunks: seq<Chunk>, q: set<string>) returns (scores: seq<real>)
    requires MathsLaws(m)
    ensures |scores| == |chunks|
    ensures forall i :: 0 <= i < |chunks| ==> scores[i] == Score(m, chunks, q, chunks[i])
  {
    hide MathsLaws, Idf, Total, SymbolFocus, LengthNorm, InSymbol, InPath, InBody;
    scores := seq(|chunks|, _ => 0.0);
    if q == {} {
      return;
    }
    var w := Weights(m, chunks);
    var sum := SumTerms(q, w);
    var d := Denominator(sum);
    QueryWeighs(m, chunks, q);
    for i := 0 to |chunks|
      invariant |scores| == |chunks|
      invariant forall j :: 0 <= j < i ==> scores[j] == Score(m, chunks, q, chunks[j])
      invariant forall j :: i <= j < |chunks| ==> scores[j] == 0.0
    {
      var c := chunks[i];
      if q * c.terms != {} {
        var symbol := SumTerms(InSymbol(c, q), w);
        var path := SumTerms(InPath(c, q), w);
        var body := SumTerms(InBody(c, q), w);
        var total := Total(SymbolFocus(m, c, q), LengthNorm(c, AverageLength(chunks)), symbol, path, body);
        scores := scores[i := total / d];
      }
    }
  }

  lemma QueryWeighs(m: Maths, chunks: seq<Chunk>, q: set<string>)
    requires MathsLaws(m) && q != {}
    ensures Sum(q, Weights(m, chunks)) > 0.0
    ensures Denominator(Sum(q, Weights(m, chunks))) == WEIGHT_SYMBOL * Sum(q, Weights(m, chunks))
  {
    var w := Weights(m, chunks);
    forall t | t in q ensures w(t) > 0.0 {
      IdfPositive(m, chunks, t);
    }
    SumPositive(q, w);
  }

  // ----- bounds

  lemma FocusIsShare(m: Maths, c: Chunk, q: set<string>)
    requires MathsLaws(m)
    ensures var f := SymbolFocus(m, c, q);
            && 0.0 <= f <= 1.0
            && (InSymbol(c, q) != {} ==> f > 0.0)
            && (f == 1.0 <==> c.symbolTokens == InSymbol(c, q))
  {
    var a, b := InSymbol(c, q), c.symbolTokens;
    if b != {} {
      SubsetSize(a, b);
      var x := |a| as real / |b| as real;
      assert x * |b| as real == |a| as real;
      if a != {} {
        Quotient(|a| as real, |b| as real);
      } else {
        assert x == 0.0;
      }
      Root(m.root(x), x);
    } else {
      assert InSymbol(c, q) == {};
    }
  }

  lemma Positive(a: real, b: real)
    requires a > 0.0 && b > 0.0
    ensures a * b > 0.0
  {
  }

  lemma Root(f: real, x: real)
    requires f >= 0.0 && f * f == x && 0.0 <= x <= 1.0
    ensures 0.0 <= f <= 1.0 && (f == 0.0 <==> x == 0.0) && (f == 1.0 <==> x == 1.0)
  {
    assert (f - 1.0) * f == x - f;
    if f > 1.0 {
      Positive(f - 1.0, f);
    } else {
      Scaled(f, f, x);
    }
  }

  lemma SubsetSize(a: set<string>, b: set<string>)
    requires a <= b
    ensures |a| <= |b| && (|a| == |b| <==> a == b)
  {
    assert b == a + (b - a);
    assert |b| == |a| + |b - a|;
  }

  lemma NormIsShare(c: Chunk, average: real)
    requires average >= 1.0
    ensures 0.0 < LengthNorm(c, average) <= 1.0
  {
    var x := LENGTH_NORM_B * |c.terms| as real;
    var d := 1.0 - LENGTH_NORM_B + x / average;
    assert x / average >= 0.0 by {
      if x > 0.0 {
        Quotient(x, average);
      }
    }
    Quotient(1.0, d);
  }

  /** The three fields share the matched terms out, so their weights add up to at most the
      query's, and to all of it only when every term is matched. */
  lemma FieldsShareQuery(m: Maths, chunks: seq<Chunk>, q: set<string>, c: Chunk)
    requires MathsLaws(m)
    ensures var w := Weights(m, chunks);
            var a, p, b := Sum(InSymbol(c, q), w), Sum(InPath(c, q), w), Sum(InBody(c, q), w);
            && a >= 0.0 && p >= 0.0 && b >= 0.0
            && (a == 0.0 <==> InSymbol(c, q) == {}) && (p == 0.0 <==> InPath(c, q) == {})
            && (b == 0.0 <==> InBody(c, q) == {})
            && a + p + b <= Sum(q, w) && (a == Sum(q, w) <==> InSymbol(c, q) == q)
  {
    hide MathsLaws, Idf;
    var w := Weights(m, chunks);
    forall t ensures w(t) > 0.0 {
      IdfPositive(m, chunks, t);
    }
    var symbol, path, body := InSymbol(c, q), InPath(c, q), InBody(c, q);
    SumPositive(symbol, w);
    SumPositive(path, w);
    SumPositive(body, w);
    SumUnion(symbol, path, w);
    SumUnion(symbol + path, body, w);
    var rest := q - symbol - path - body;
    SumUnion(symbol + path + body, rest, w);
    assert symbol + path + body + rest == q;
    SumPositive(rest, w);
    SumPositive(q - symbol, w);
    SumUnion(symbol, q - symbol, w);
    assert symbol + (q - symbol) == q;
  }

  lemma Scaled(f: real, a: real, x: real)
    requires 0.0 <= f <= 1.0 && a >= 0.0 && x == f * a
    ensures 0.0 <= x <= a && (x == a <==> f == 1.0 || a == 0.0) && (x == 0.0 <==> f == 0.0 || a == 0.0)
  {
    var y := (1.0 - f) * a;
    assert y == a - x;
    if a > 0.0 {
      if f > 0.0 {
        Positive(f, a);
      }
      if f < 1.0 {
        Positive(1.0 - f, a);
      }
    }
  }

  lemma TotalBounds(f: real, l: real, a: real, p: real, b: real, d: real)
    requires 0.0 <= f <= 1.0 && 0.0 < l <= 1.0 && a >= 0.0 && p >= 0.0 && b >= 0.0 && d > 0.0
    requires a + p + b <= d && (a > 0.0 ==> f > 0.0)
    ensures var t := Total(f, l, a, p, b);
            && 0.0 <= t <= 3.0 * d
            && (t == 0.0 <==> a == p == b == 0.0)
            && (t == 3.0 * d <==> a == d && f == 1.0)
            && (a == 0.0 ==> t <= 2.0 * d) && (a == 0.0 && p == 0.0 ==> t <= d)
  {
    hide Total;
    var x, y := f * a, l * b;
    Scaled(f, a, x);
    Scaled(l, b, y);
    LinearTotal(f, l, a, p, b, x, y);
    WeightedBounds(Total(f, l, a, p, b), x, p, y, a, b, d, f);
  }

  lemma LinearTotal(f: real, l: real, a: real, p: real, b: real, x: real, y: real)
    requires x == f * a && y == l * b
    ensures Total(f, l, a, p, b) == 3.0 * x + 2.0 * p + y
  {
    assert 3.0 * f * a == 3.0 * x;
  }

  lemma WeightedBounds(t: real, x: real, p: real, y: real, a: real, b: real, d: real, f: real)
    requires t == 3.0 * x + 2.0 * p + y
    requires 0.0 <= x <= a && p >= 0.0 && 0.0 <= y <= b && a + p + b <= d && d > 0.0
    requires (x == 0.0 <==> f == 0.0 || a == 0.0) && (x == a <==> f == 1.0 || a == 0.0) && (y == 0.0 <==> b == 0.0)
    requires a > 0.0 ==> f > 0.0
    ensures 0.0 <= t <= 3.0 * d && (t == 0.0 <==> a == p == b == 0.0)
    ensures t == 3.0 * d <==> a == d && f == 1.0
    ensures (a == 0.0 ==> t <= 2.0 * d) && (a == 0.0 && p == 0.0 ==> t <= d)
  {
  }

  lemma Divide(t: real, d: real, k: real)
    requires d > 0.0
    ensures t <= k * d <==> t / d <= k
    ensures t == k * d <==> t / d == k
    ensures t >= 0.0 <==> t / d >= 0.0
    ensures t == 0.0 <==> t / d == 0.0
  {
    var x := t / d;
    assert x * d == t;
    if x < k {
      assert (k - x) * d > 0.0;
    } else if x > k {
      assert (x - k) * d > 0.0;
    }
  }

  /** MAIN: for every corpus and query a score lies in [0, 1]; it is 0 exactly when no term is in
      the lexicon, at most 2/3 when no term is in the symbol and 1/3 when none is in the path
      either, and 1 exactly when the symbol's tokens are the query, all of them indexed. */
  lemma ScoreBounds(m: Maths, chunks: seq<Chunk>, q: set<string>, c: Chunk)
    requires MathsLaws(m)
    ensures var s := Score(m, chunks, q, c);
            && 0.0 <= s <= 1.0
            && (s == 0.0 <==> q * c.terms == {})
            && (s == 1.0 <==> q != {} && q == c.symbolTokens && q <= c.terms)
            && (InSymbol(c, q) == {} ==> s <= 2.0 / 3.0)
            && (InSymbol(c, q) == {} && InPath(c, q) == {} ==> s <= 1.0 / 3.0)
  {
    if q * c.terms != {} {
      MatchedBounds(m, chunks, q, c);
    }
  }

  lemma MatchedBounds(m: Maths, chunks: seq<Chunk>, q: set<string>, c: Chunk)
    requires MathsLaws(m) && q * c.terms != {}
    ensures var s := Score(m, chunks, q, c);
            && 0.0 < s <= 1.0
            && (s == 1.0 <==> q == c.symbolTokens && q <= c.terms)
            && (InSymbol(c, q) == {} ==> s <= 2.0 / 3.0)
            && (InSymbol(c, q) == {} && InPath(c, q) == {} ==> s <= 1.0 / 3.0)
  {
    hide MathsLaws, Weights, SymbolFocus, LengthNorm, AverageLength, Total;
    var w := Weights(m, chunks);
    var f, l := SymbolFocus(m, c, q), LengthNorm(c, AverageLength(chunks));
    var a, p, b := Sum(InSymbol(c, q), w), Sum(InPath(c, q), w), Sum(InBody(c, q), w);
    var d := Sum(q, w);
    QueryWeighs(m, chunks, q);
    FocusIsShare(m, c, q);
    NormIsShare(c, AverageLength(chunks));
    FieldsShareQuery(m, chunks, q, c);
    TotalBounds(f, l, a, p, b, d);
    var t := Total(f, l, a, p, b);
    assert Score(m, chunks, q, c) == t / (3.0 * d);
    assert 2.0 / 3.0 * (3.0 * d) == 2.0 * d && 1.0 / 3.0 * (3.0 * d) == d;
    Divide(t, 3.0 * d, 1.0);
    Divide(t, 3.0 * d, 2.0 / 3.0);
    Divide(t, 3.0 * d, 1.0 / 3.0);
    assert q * c.terms == InSymbol(c, q) + InPath(c, q) + InBody(c, q);
    assert InSymbol(c, q) == q && c.symbolTokens == InSymbol(c, q) <==> q == c.symbolTokens && q <= c.terms;
  }

  // ----- fusion

  function Prior(r: Role): real {
    match r
    case Source => 1.0
    case Test => 0.75
    case Doc => 0.65
    case Migration => 0.55
  }

  /** The share of the query's terms that a field holds. */
  function Share(q: set<string>, tokens: set<string>): real {
    if q != {} && tokens != {} then |q * tokens| as real / |q| as real else 0.0
  }

  function MetaSum(c: Chunk, mention: Mention, q: set<string>): real {
    var cited := mention.symbolInQuery && |c.symbolTokens| >= MIN_SYMBOL_TOKENS_FOR_CITATION;
    (if mention.queryInSymbol || cited then 0.55 else 0.0) + (if mention.queryInPath then 0.35 else 0.0)
    + 0.45 * Share(q, c.symbolTokens) + 0.25 * Share(q, c.pathTokens)
  }

  /** `meta_scores` of one chunk. */
  function Meta(c: Chunk, mention: Mention, q: set<string>): real {
    var score := MetaSum(c, mention, q) * Prior(c.role);
    if score <= 1.0 then score else 1.0
  }

  lemma MetaBounds(c: Chunk, mention: Mention, q: set<string>)
    ensures 0.0 <= Meta(c, mention, q) <= 1.0
  {
    hide Prior, MetaSum;
    ShareNonNegative(q, c.symbolTokens);
    ShareNonNegative(q, c.pathTokens);
    MetaSumNonNegative(c, mention, q);
    PriorPositive(c.role);
    Product(MetaSum(c, mention, q), Prior(c.role));
  }

  lemma ShareNonNegative(q: set<string>, tokens: set<string>)
    ensures Share(q, tokens) >= 0.0
  {
    if q != {} {
      NonNegative(|q * tokens| as real, |q| as real);
    }
  }

  lemma MetaSumNonNegative(c: Chunk, mention: Mention, q: set<string>)
    requires Share(q, c.symbolTokens) >= 0.0 && Share(q, c.pathTokens) >= 0.0
    ensures MetaSum(c, mention, q) >= 0.0
  {
    hide Share;
  }

  lemma PriorPositive(r: Role)
    ensures 0.0 < Prior(r) <= 1.0
  {
  }

  lemma Product(a: real, b: real)
    requires a >= 0.0 && b > 0.0
    ensures a * b >= 0.0
  {
  }

  lemma NonNegative(a: real, b: real)
    requires a >= 0.0 && b > 0.0
    ensures a / b >= 0.0
  {
    if a > 0.0 {
      Quotient(a, b);
    }
  }

  function Blend(lexical: real, meta: real): real {
    LEXICAL_WEIGHT * lexical + META_WEIGHT * meta
  }

  function Fused(lexical: real, meta: real, r: Role): real {
    Blend(lexical, meta) * Prior(r)
  }

  /** The fused score never exceeds the prior of the chunk's role. */
  lemma FusedBounds(m: Maths, chunks: seq<Chunk>, q: set<string>, c: Chunk, mention: Mention)
    requires MathsLaws(m)
    ensures 0.0 <= Fused(Score(m, chunks, q, c), Meta(c, mention, q), c.role) <= Prior(c.role) <= 1.0
  {
    hide Score, Meta, Prior, MathsLaws, Blend;
    ScoreBounds(m, chunks, q, c);
    MetaBounds(c, mention, q);
    PriorPositive(c.role);
    BlendBounds(Score(m, chunks, q, c), Meta(c, mention, q));
    ScaledDown(Blend(Score(m, chunks, q, c), Meta(c, mention, q)), Prior(c.role));
  }

  lemma BlendBounds(a: real, b: real)
    requires 0.0 <= a <= 1.0 && 0.0 <= b <= 1.0
    ensures 0.0 <= Blend(a, b) <= 1.0
  {
  }

  lemma ScaledDown(x: real, p: real)
    requires 0.0 <= x <= 1.0 && p > 0.0
    ensures 0.0 <= x * p <= p
  {
  }

  // ----- order

  /** What `sorted(range(n), key=lambda i: (-scores[i], i))` promises. */
  predicate Before(scores: seq<real>, i: nat, j: nat)
    requires i < |scores| && j < |scores|
  {
    scores[i] > scores[j] || (scores[i] == scores[j] && i < j)
  }

  predicate IsOrder(scores: seq<real>, order: seq<nat>) {
    && |order| == |scores|
    && (forall i :: 0 <= i < |order| ==> order[i] < |scores|)
    && (forall i, j :: 0 <= i < j < |order| ==> Before(scores, order[i], order[j]))
    && (forall n: nat :: n < |scores| ==> n in order)
  }

  function InsertIndex(scores: seq<real>, order: seq<nat>, n: nat): seq<nat>
    requires n < |scores| && forall i :: 0 <= i < |order| ==> order[i] < |scores|
  {
    if order == [] || scores[n] > scores[order[0]] then [n] + order
    else [order[0]] + InsertIndex(scores, order[1..], n)
  }

  lemma {:induction false} InsertKeepsOrder(scores: seq<real>, order: seq<nat>, n: nat)
    requires n < |scores| && forall i :: 0 <= i < |order| ==> order[i] < n
    requires forall i, j :: 0 <= i < j < |order| ==> Before(scores, order[i], order[j])
    ensures var r := InsertIndex(scores, order, n);
            && |r| == |order| + 1
            && (forall x :: x in r <==> x == n || x in order)
            && (forall i :: 0 <= i < |r| ==> r[i] <= n)
            && (forall i, j :: 0 <= i < j < |r| ==> Before(scores, r[i], r[j]))
  {
    var r := InsertIndex(scores, order, n);
    if order != [] {
      assert order == [order[0]] + order[1..];
      if !(scores[n] > scores[order[0]]) {
        InsertKeepsOrder(scores, order[1..], n);
        var rest := InsertIndex(scores, order[1..], n);
        forall j | 0 <= j < |rest| ensures Before(scores, order[0], rest[j]) {
          assert rest[j] in rest;
          if rest[j] != n {
            var k :| 0 <= k < |order[1..]| && order[1..][k] == rest[j];
            assert order[k + 1] == rest[j];
          }
        }
      }
    }
  }

  function SortedOrder(scores: seq<real>, n: nat): (r: seq<nat>)
    requires n <= |scores|
    ensures forall i :: 0 <= i < |r| ==> r[i] < |scores|
  {
    if n == 0 then []
    else
      Inserted(scores, SortedOrder(scores, n - 1), n - 1);
      InsertIndex(scores, SortedOrder(scores, n - 1), n - 1)
  }

  lemma {:induction false} Inserted(scores: seq<real>, order: seq<nat>, n: nat)
    requires n < |scores| && forall i :: 0 <= i < |order| ==> order[i] < |scores|
    ensures forall i :: 0 <= i < |InsertIndex(scores, order, n)| ==> InsertIndex(scores, order, n)[i] < |scores|
  {
    if order != [] && !(scores[n] > scores[order[0]]) {
      Inserted(scores, order[1..], n);
    }
  }

  lemma {:induction false} SortedIsOrder(scores: seq<real>, n: nat)
    requires n <= |scores|
    ensures var r := SortedOrder(scores, n);
            && |r| == n && (forall i :: 0 <= i < n ==> r[i] < n)
            && (forall i, j :: 0 <= i < j < n ==> Before(scores, r[i], r[j]))
            && (forall x: nat :: x < n ==> x in r)
  {
    if n > 0 {
      SortedIsOrder(scores, n - 1);
      InsertKeepsOrder(scores, SortedOrder(scores, n - 1), n - 1);
    }
  }

  /** MAIN: the ranking is one stable descending permutation of the chunks, and the only one. */
  lemma OrderIsUnique(scores: seq<real>, order: seq<nat>)
    ensures IsOrder(scores, SortedOrder(scores, |scores|))
    ensures IsOrder(scores, order) ==> order == SortedOrder(scores, |scores|)
  {
    SortedIsOrder(scores, |scores|);
    if IsOrder(scores, order) {
      SamePrefix(scores, order, SortedOrder(scores, |scores|), |scores|);
      assert order[..|scores|] == order;
    }
  }

  lemma {:induction false} SamePrefix(scores: seq<real>, a: seq<nat>, b: seq<nat>, n: nat)
    requires IsOrder(scores, a) && IsOrder(scores, b) && n <= |scores|
    ensures a[..n] == b[..n]
  {
    if n > 0 {
      SamePrefix(scores, a, b, n - 1);
      var i := n - 1;
      assert forall k :: 0 <= k < i ==> a[k] == a[..i][k] == b[..i][k] == b[k];
      if a[i] != b[i] {
        NotEarlier(scores, a, i);
        NotEarlier(scores, b, i);
        Later(scores, b, i, a[i]);
        Later(scores, a, i, b[i]);
      }
    }
  }

  lemma NotEarlier(scores: seq<real>, a: seq<nat>, i: nat)
    requires IsOrder(scores, a) && i < |a|
    ensures a[i] !in a[..i] && a[i] < |scores|
  {
    forall k | 0 <= k < i ensures a[k] != a[i] {
      assert Before(scores, a[k], a[i]);
    }
  }

  /** What is not among the first i places nor at place i comes after it. */
  lemma Later(scores: seq<real>, a: seq<nat>, i: nat, x: nat)
    requires IsOrder(scores, a) && i < |a| && x < |scores| && x != a[i] && x !in a[..i]
    ensures Before(scores, a[i], x)
  {
    assert forall k :: 0 <= k < i ==> a[k] in a[..i];
    assert x in a;
    var j :| 0 <= j < |a| && a[j] == x;
    assert i < j;
  }

  /** The ranked list that selection walks over. */
  function Ranked(chunks: seq<Chunk>, scores: seq<real>, order: seq<nat>): (r: seq<Selector.Item>)
    requires |scores| == |chunks| && forall i :: 0 <= i < |order| ==> order[i] < |chunks|
    ensures |r| == |order|
  {
    seq(|order|, i requires 0 <= i < |order| =>
      Selector.Item(chunks[order[i]].path, chunks[order[i]].start, chunks[order[i]].end, scores[order[i]]))
  }

  /** So the lexical-only list meets the condition under which selection is exact. */
  lemma RankedDescends(chunks: seq<Chunk>, scores: seq<real>, order: seq<nat>)
    requires |scores| == |chunks| && IsOrder(scores, order)
    ensures Selector.Descending(Ranked(chunks, scores, order))
  {
    var r := Ranked(chunks, scores, order);
    forall i, j | 0 <= i < j < |r| ensures r[i].score >= r[j].score {
      assert Before(scores, order[i], order[j]);
    }
  }
}
