/** What the weights of the lexical score mean: rare terms, short lexicons and strong fields count
    for more. */
module RankingLaws {
  import opened Ranking

  // ----- rare terms

  /** The chunks whose lexicon holds the term. */
  function Holders(chunks: seq<Chunk>, t: string): set<int> {
    set i | 0 <= i < |chunks| && t in chunks[i].terms
  }

  lemma {:induction false} FrequencyIs(chunks: seq<Chunk>, t: string)
    ensures Frequency(chunks, t) == |Holders(chunks, t)|
  {
    if chunks == [] {
      assert Holders(chunks, t) == {};
    } else {
      var last := |chunks| - 1;
      FrequencyIs(chunks[..last], t);
      assert Holders(chunks, t) == Holders(chunks[..last], t) + (if t in chunks[last].terms then {last} else {});
    }
  }

  lemma SignOf(x: real, k: real)
    requires k > 0.0
    ensures x * k > 0.0 <==> x > 0.0
    ensures x * k == 0.0 <==> x == 0.0
  {
    if x > 0.0 {
      assert x * k > 0.0;
    } else if x < 0.0 {
      assert (-x) * k > 0.0;
    }
  }

  lemma Inverse(a: real, b: real, c: real, d: real)
    requires 0.0 < b < d && 0.0 < c < a
    ensures a / b > c / d
  {
    var x, y := a / b, c / d;
    assert x * b == a && y * d == c;
    SignOf(a - c, d);
    SignOf(d - b, c);
    assert (x - y) * (b * d) == a * d - c * b;
    SignOf(b, d);
    SignOf(x - y, b * d);
  }

  /** MAIN: of two terms the one in fewer lexicons weighs more, and terms in equally many weigh the
      same. */
  lemma RarerWeighsMore(m: Maths, chunks: seq<Chunk>, t: string, u: string)
    requires MathsLaws(m)
    ensures Idf(m, chunks, t) > Idf(m, chunks, u) <==> |Holders(chunks, t)| < |Holders(chunks, u)|
    ensures Idf(m, chunks, t) == Idf(m, chunks, u) <==> |Holders(chunks, t)| == |Holders(chunks, u)|
  {
    FrequencyIs(chunks, t);
    FrequencyIs(chunks, u);
    FewerWeighsMore(m, chunks, t, u);
    FewerWeighsMore(m, chunks, u, t);
  }

  lemma FewerWeighsMore(m: Maths, chunks: seq<Chunk>, t: string, u: string)
    requires MathsLaws(m)
    ensures Frequency(chunks, t) < Frequency(chunks, u) ==> Idf(m, chunks, t) > Idf(m, chunks, u)
  {
    var n := if |chunks| >= 1 then |chunks| else 1;
    var a, b := Frequency(chunks, t), Frequency(chunks, u);
    if a < b {
      Inverse((n - a) as real + 0.5, a as real + 0.5, (n - b) as real + 0.5, b as real + 0.5);
      Quotient((n - b) as real + 0.5, b as real + 0.5);
    }
  }

  // ----- matches in the body only

  predicate BodyOnly(c: Chunk, q: set<string>) {
    InSymbol(c, q) == {} && InPath(c, q) == {}
  }

  lemma BodyHoldsAll(c: Chunk, q: set<string>)
    requires BodyOnly(c, q)
    ensures InBody(c, q) == q * c.terms
  {
  }

  lemma SumNone(w: string -> real)
    ensures Sum({}, w) == 0.0
  {
  }

  /** The score of matches in the body only. */
  lemma BodyScore(m: Maths, chunks: seq<Chunk>, q: set<string>, c: Chunk)
    requires MathsLaws(m) && q != {} && BodyOnly(c, q)
    ensures var w := Weights(m, chunks);
            && Sum(q, w) > 0.0
            && Score(m, chunks, q, c) ==
               LengthNorm(c, AverageLength(chunks)) * Sum(q * c.terms, w) / (3.0 * Sum(q, w))
  {
    hide MathsLaws, Idf, LengthNorm, AverageLength, SymbolFocus, Total, InBody, InSymbol, InPath, Sum;
    var w := Weights(m, chunks);
    QueryWeighs(m, chunks, q);
    BodyHoldsAll(c, q);
    SumNone(w);
    NoOtherField(SymbolFocus(m, c, q), LengthNorm(c, AverageLength(chunks)), Sum(q * c.terms, w));
    if q * c.terms == {} {
      Nothing(LengthNorm(c, AverageLength(chunks)), 3.0 * Sum(q, w));
    }
  }

  lemma Nothing(l: real, d: real)
    requires d > 0.0
    ensures l * 0.0 / d == 0.0
  {
  }

  lemma NoOtherField(f: real, l: real, b: real)
    ensures Total(f, l, 0.0, 0.0, b) == l * b
  {
    assert 3.0 * f * 0.0 == 0.0;
  }

  lemma SumOne(t: string, w: string -> real)
    ensures Sum({t}, w) == w(t)
  {
    SumRemove({t}, w, t);
    assert {t} - {t} == {};
  }

  lemma Times(l: real, a: real, b: real, d: real)
    requires l > 0.0 && d > 0.0
    ensures l * a / d > l * b / d <==> a > b
    ensures l * a / d == l * b / d <==> a == b
  {
    var x, y := l * a / d, l * b / d;
    assert x * d == l * a && y * d == l * b;
    assert (x - y) * d == l * (a - b);
    if a > b {
      assert l * (a - b) > 0.0;
    } else if a < b {
      assert l * (b - a) > 0.0;
    }
  }

  /** MAIN: of two chunks of one length that match one query term each, in the body only, the one
      whose term is in fewer lexicons scores higher. */
  lemma RarerScoresHigher(m: Maths, chunks: seq<Chunk>, q: set<string>, c: Chunk, e: Chunk, t: string, u: string)
    requires MathsLaws(m) && BodyOnly(c, q) && BodyOnly(e, q) && |c.terms| == |e.terms|
    requires q * c.terms == {t} && q * e.terms == {u}
    ensures Score(m, chunks, q, c) > Score(m, chunks, q, e) <==> |Holders(chunks, t)| < |Holders(chunks, u)|
  {
    hide MathsLaws, Idf, LengthNorm, AverageLength, Score, InBody, Sum;
    var w := Weights(m, chunks);
    BodyScore(m, chunks, q, c);
    BodyScore(m, chunks, q, e);
    SumOne(t, w);
    SumOne(u, w);
    SameNorm(c, e, AverageLength(chunks));
    NormIsShare(c, AverageLength(chunks));
    RarerWeighsMore(m, chunks, t, u);
    Times(LengthNorm(c, AverageLength(chunks)), w(t), w(u), 3.0 * Sum(q, w));
  }

  lemma SameNorm(c: Chunk, e: Chunk, average: real)
    requires average >= 1.0 && |c.terms| == |e.terms|
    ensures LengthNorm(c, average) == LengthNorm(e, average)
  {
  }

  lemma LongerNorm(c: Chunk, e: Chunk, average: real)
    requires average >= 1.0 && |c.terms| <= |e.terms|
    ensures LengthNorm(e, average) <= LengthNorm(c, average)
  {
    var x, y := LENGTH_NORM_B * |c.terms| as real, LENGTH_NORM_B * |e.terms| as real;
    Shares(x, y, average);
    var a, b := 1.0 - LENGTH_NORM_B + x / average, 1.0 - LENGTH_NORM_B + y / average;
    Reciprocal(a, b);
  }

  lemma Shares(x: real, y: real, d: real)
    requires 0.0 <= x <= y && d > 0.0
    ensures 0.0 <= x / d <= y / d
  {
    var a, b := x / d, y / d;
    assert a * d == x && b * d == y;
  }

  lemma Reciprocal(a: real, b: real)
    requires 0.0 < a <= b
    ensures 1.0 / b <= 1.0 / a
  {
    var x, y := 1.0 / a, 1.0 / b;
    assert x * a == 1.0 && y * b == 1.0;
    assert (x - y) * (a * b) == b - a;
    SignOf(a, b);
    SignOf(x - y, a * b);
  }

  lemma ScaledShares(l: real, k: real, b: real, d: real)
    requires l <= k && b >= 0.0 && d > 0.0
    ensures l * b / d <= k * b / d
  {
    assert (k - l) * b >= 0.0;
    var x, y := l * b / d, k * b / d;
    assert x * d == l * b && y * d == k * b;
  }

  /** MAIN: for matches in the body only a longer lexicon never raises the score. */
  lemma LongerNeverRaises(m: Maths, chunks: seq<Chunk>, q: set<string>, c: Chunk, e: Chunk)
    requires MathsLaws(m) && BodyOnly(c, q) && BodyOnly(e, q)
    requires q * c.terms == q * e.terms && |c.terms| <= |e.terms|
    ensures Score(m, chunks, q, e) <= Score(m, chunks, q, c)
  {
    hide MathsLaws, Idf, LengthNorm, AverageLength, InBody, InSymbol, InPath, Sum, Score;
    if q == {} {
      NoQuery(m, chunks, c);
      NoQuery(m, chunks, e);
    } else {
      var w, average := Weights(m, chunks), AverageLength(chunks);
      BodyScore(m, chunks, q, c);
      BodyScore(m, chunks, q, e);
      LongerNorm(c, e, average);
      WeighsNonNegative(m, chunks, q * c.terms);
      ScaledShares(LengthNorm(e, average), LengthNorm(c, average), Sum(q * c.terms, w), 3.0 * Sum(q, w));
    }
  }

  lemma NoQuery(m: Maths, chunks: seq<Chunk>, c: Chunk)
    ensures Score(m, chunks, {}, c) == 0.0
  {
  }

  lemma WeighsNonNegative(m: Maths, chunks: seq<Chunk>, s: set<string>)
    requires MathsLaws(m)
    ensures Sum(s, Weights(m, chunks)) >= 0.0 && (Sum(s, Weights(m, chunks)) == 0.0 <==> s == {})
  {
    hide Idf;
    forall t | t in s ensures Weights(m, chunks)(t) > 0.0 {
      IdfPositive(m, chunks, t);
    }
    SumPositive(s, Weights(m, chunks));
  }

  // ----- stronger fields

  /** The score of a chunk, matched or not. */
  lemma ScoreIs(m: Maths, chunks: seq<Chunk>, q: set<string>, c: Chunk)
    requires MathsLaws(m) && q != {}
    ensures var w := Weights(m, chunks);
            && Sum(q, w) > 0.0
            && Score(m, chunks, q, c) ==
               Total(SymbolFocus(m, c, q), LengthNorm(c, AverageLength(chunks)),
                     Sum(InSymbol(c, q), w), Sum(InPath(c, q), w), Sum(InBody(c, q), w)) / (3.0 * Sum(q, w))
  {
    hide MathsLaws, Idf, LengthNorm, AverageLength, SymbolFocus, Sum, Total;
    var w := Weights(m, chunks);
    QueryWeighs(m, chunks, q);
    if q * c.terms == {} {
      assert InSymbol(c, q) == {} && InPath(c, q) == {} && InBody(c, q) == {};
      SumNone(w);
      NothingMatched(SymbolFocus(m, c, q), LengthNorm(c, AverageLength(chunks)), 3.0 * Sum(q, w));
    }
  }

  lemma NothingMatched(f: real, l: real, d: real)
    requires d > 0.0
    ensures Total(f, l, 0.0, 0.0, 0.0) / d == 0.0
  {
    assert 3.0 * f * 0.0 == 0.0 && l * 0.0 == 0.0;
  }

  /** The three fields of a chunk, in terms of what is in the symbol, in the symbol or the path, and
      matched at all. */
  lemma FieldSums(m: Maths, chunks: seq<Chunk>, q: set<string>, c: Chunk)
    requires MathsLaws(m)
    ensures var w := Weights(m, chunks);
            var a, b := Sum(InSymbol(c, q), w), Sum(InSymbol(c, q) + InPath(c, q), w);
            && Sum(InPath(c, q), w) == b - a && Sum(InBody(c, q), w) == Sum(q * c.terms, w) - b
            && 0.0 <= a <= b <= Sum(q * c.terms, w)
  {
    hide MathsLaws, Idf, Sum;
    var w := Weights(m, chunks);
    var s, p, b := InSymbol(c, q), InPath(c, q), InBody(c, q);
    SumUnion(s, p, w);
    SumUnion(s + p, b, w);
    assert s + p + b == q * c.terms;
    WeighsNonNegative(m, chunks, s);
    WeighsNonNegative(m, chunks, p);
    WeighsNonNegative(m, chunks, b);
  }

  lemma MoreWeighsMore(m: Maths, chunks: seq<Chunk>, s: set<string>, t: set<string>)
    requires MathsLaws(m) && s <= t
    ensures Sum(s, Weights(m, chunks)) <= Sum(t, Weights(m, chunks))
    ensures Sum(s, Weights(m, chunks)) == Sum(t, Weights(m, chunks)) <==> s == t
  {
    hide MathsLaws, Idf, Sum;
    SumUnion(s, t - s, Weights(m, chunks));
    assert s + (t - s) == t;
    WeighsNonNegative(m, chunks, t - s);
  }

  lemma TotalGrows(f: real, l: real, a: real, b: real, x: real, a': real, b': real)
    requires 0.0 <= f <= 1.0 && 0.0 < l <= 1.0 && 0.0 <= a <= a' && a <= b <= b'
    ensures Total(f, l, a, b - a, x - b) <= Total(1.0, l, a', b' - a', x - b')
    ensures a < a' || b < b' ==> Total(f, l, a, b - a, x - b) < Total(1.0, l, a', b' - a', x - b')
  {
    assert f * a <= a by {
      Scaled(f, a, f * a);
    }
    assert 3.0 * f * a == 3.0 * (f * a);
    assert Total(f, l, a, b - a, x - b) == 3.0 * (f * a) + 2.0 * (b - a) + l * (x - b);
    assert l * (x - b) - l * (x - b') == l * (b' - b);
    Scaled(l, b' - b, l * (b' - b));
  }

  /** MAIN: moving matches from the body to the path, and from there to the symbol, never lowers
      the score of a chunk whose symbol the query covers, and raises it when any is moved. */
  lemma StrongerFieldsScoreMore(m: Maths, chunks: seq<Chunk>, q: set<string>, c: Chunk, e: Chunk)
    requires MathsLaws(m) && q * c.terms == q * e.terms && |c.terms| == |e.terms|
    requires InSymbol(c, q) <= InSymbol(e, q) && InSymbol(c, q) + InPath(c, q) <= InSymbol(e, q) + InPath(e, q)
    requires e.symbolTokens == InSymbol(e, q)
    ensures Score(m, chunks, q, c) <= Score(m, chunks, q, e)
    ensures InSymbol(c, q) != InSymbol(e, q) || InPath(c, q) != InPath(e, q) ==>
              Score(m, chunks, q, c) < Score(m, chunks, q, e)
  {
    hide MathsLaws, Idf, LengthNorm, AverageLength, SymbolFocus, Sum, Total, Score;
    if q == {} {
      NoQuery(m, chunks, c);
      NoQuery(m, chunks, e);
      assert InSymbol(c, q) == {} && InSymbol(e, q) == {} && InPath(c, q) == {} && InPath(e, q) == {};
    } else {
      FieldsMoved(m, chunks, q, c, e);
    }
  }

  lemma FieldsMoved(m: Maths, chunks: seq<Chunk>, q: set<string>, c: Chunk, e: Chunk)
    requires MathsLaws(m) && q != {} && q * c.terms == q * e.terms && |c.terms| == |e.terms|
    requires InSymbol(c, q) <= InSymbol(e, q) && InSymbol(c, q) + InPath(c, q) <= InSymbol(e, q) + InPath(e, q)
    requires e.symbolTokens == InSymbol(e, q)
    ensures Score(m, chunks, q, c) <= Score(m, chunks, q, e)
    ensures InSymbol(c, q) != InSymbol(e, q) || InPath(c, q) != InPath(e, q) ==>
              Score(m, chunks, q, c) < Score(m, chunks, q, e)
  {
    hide MathsLaws, Idf, LengthNorm, AverageLength, SymbolFocus, Sum, Total, Score, Weights, InSymbol, InPath, InBody;
    var w, l := Weights(m, chunks), LengthNorm(c, AverageLength(chunks));
    var s, t := InSymbol(c, q), InSymbol(e, q);
    var sp, tp := s + InPath(c, q), t + InPath(e, q);
    ScoreBySums(m, chunks, q, c);
    ScoreBySums(m, chunks, q, e);
    SameNorm(c, e, AverageLength(chunks));
    NormIsShare(c, AverageLength(chunks));
    FocusIsShare(m, c, q);
    FocusIsShare(m, e, q);
    MoreWeighsMore(m, chunks, s, t);
    MoreWeighsMore(m, chunks, sp, tp);
    TotalGrows(SymbolFocus(m, c, q), l, Sum(s, w), Sum(sp, w), Sum(q * c.terms, w), Sum(t, w), Sum(tp, w));
    SameFields(q, c, e);
    Order(Total(SymbolFocus(m, c, q), l, Sum(s, w), Sum(sp, w) - Sum(s, w), Sum(q * c.terms, w) - Sum(sp, w)),
          Total(1.0, l, Sum(t, w), Sum(tp, w) - Sum(t, w), Sum(q * c.terms, w) - Sum(tp, w)), 3.0 * Sum(q, w));
  }

  lemma ScoreBySums(m: Maths, chunks: seq<Chunk>, q: set<string>, c: Chunk)
    requires MathsLaws(m) && q != {}
    ensures var w, l := Weights(m, chunks), LengthNorm(c, AverageLength(chunks));
            var a, b, x := Sum(InSymbol(c, q), w), Sum(InSymbol(c, q) + InPath(c, q), w), Sum(q * c.terms, w);
            && Sum(q, w) > 0.0 && 0.0 <= a <= b
            && Score(m, chunks, q, c) == Total(SymbolFocus(m, c, q), l, a, b - a, x - b) / (3.0 * Sum(q, w))
  {
    hide MathsLaws, Idf, LengthNorm, AverageLength, SymbolFocus, Sum, Total, Score, Weights, InSymbol, InPath, InBody;
    ScoreIs(m, chunks, q, c);
    FieldSums(m, chunks, q, c);
  }

  lemma SameFields(q: set<string>, c: Chunk, e: Chunk)
    ensures InSymbol(c, q) == InSymbol(e, q) && InSymbol(c, q) + InPath(c, q) == InSymbol(e, q) + InPath(e, q)
            ==> InPath(c, q) == InPath(e, q)
  {
    assert InPath(c, q) == InSymbol(c, q) + InPath(c, q) - InSymbol(c, q);
    assert InPath(e, q) == InSymbol(e, q) + InPath(e, q) - InSymbol(e, q);
  }

  lemma Order(a: real, b: real, d: real)
    requires d > 0.0
    ensures a <= b ==> a / d <= b / d
    ensures a < b ==> a / d < b / d
  {
    var x, y := a / d, b / d;
    assert (y - x) * d == b - a;
    SignOf(y - x, d);
  }

  // ----- exact values

  /** MAIN: a query all in the symbol scores the root of its share of the symbol, all in the path
      2/3, and all in the body 1/3 in a chunk of at most average length, divided in a longer one
      by a quarter and three quarters of its length in averages. */
  lemma ScoreExactly(m: Maths, chunks: seq<Chunk>, q: set<string>, c: Chunk)
    requires MathsLaws(m) && q != {}
    ensures var s, average := Score(m, chunks, q, c), AverageLength(chunks);
            && (InSymbol(c, q) == q ==> s >= 0.0 && s * s * |c.symbolTokens| as real == |q| as real)
            && (InPath(c, q) == q ==> s == 2.0 / 3.0)
            && (InBody(c, q) == q && |c.terms| as real <= average ==> s == 1.0 / 3.0)
            && (InBody(c, q) == q && |c.terms| as real >= average ==>
                  s * 3.0 * (0.25 + 0.75 * (|c.terms| as real / average)) == 1.0)
  {
    hide MathsLaws, LengthNorm, AverageLength, SymbolFocus, Score, InSymbol, InPath, InBody;
    var average := AverageLength(chunks);
    if InSymbol(c, q) == q {
      OneField(m, chunks, q, c);
      FocusSquared(m, c, q);
    }
    if InPath(c, q) == q || InBody(c, q) == q {
      OneField(m, chunks, q, c);
    }
    if InBody(c, q) == q {
      NormExactly(c, average);
      Thirds(LengthNorm(c, average), 0.25 + 0.75 * (|c.terms| as real / average));
    }
  }

  lemma Thirds(l: real, x: real)
    ensures l / 3.0 * 3.0 * x == l * x
  {
  }

  /** The whole query in one field. */
  lemma OneField(m: Maths, chunks: seq<Chunk>, q: set<string>, c: Chunk)
    requires MathsLaws(m) && q != {}
    ensures InSymbol(c, q) == q ==> Score(m, chunks, q, c) == SymbolFocus(m, c, q)
    ensures InPath(c, q) == q ==> Score(m, chunks, q, c) == 2.0 / 3.0
    ensures InBody(c, q) == q ==> Score(m, chunks, q, c) == LengthNorm(c, AverageLength(chunks)) / 3.0
  {
    hide MathsLaws, Idf, LengthNorm, AverageLength, SymbolFocus, Sum, Total, Score, Weights, InSymbol, InPath, InBody;
    ScoreIs(m, chunks, q, c);
    SumNone(Weights(m, chunks));
    OthersEmpty(c, q);
    AllInOne(SymbolFocus(m, c, q), LengthNorm(c, AverageLength(chunks)), Sum(q, Weights(m, chunks)));
  }

  lemma OthersEmpty(c: Chunk, q: set<string>)
    ensures InSymbol(c, q) == q ==> InPath(c, q) == {} && InBody(c, q) == {}
    ensures InPath(c, q) == q ==> InSymbol(c, q) == {} && InBody(c, q) == {}
    ensures InBody(c, q) == q ==> InSymbol(c, q) == {} && InPath(c, q) == {}
  {
  }

  lemma AllInOne(f: real, l: real, d: real)
    requires d > 0.0
    ensures Total(f, l, d, 0.0, 0.0) / (3.0 * d) == f
    ensures Total(f, l, 0.0, d, 0.0) / (3.0 * d) == 2.0 / 3.0
    ensures Total(f, l, 0.0, 0.0, d) / (3.0 * d) == l / 3.0
  {
    assert Total(f, l, d, 0.0, 0.0) == f * (3.0 * d);
    assert 3.0 * f * 0.0 == 0.0 && l * 0.0 == 0.0;
    assert Total(f, l, 0.0, d, 0.0) == 2.0 / 3.0 * (3.0 * d);
    assert Total(f, l, 0.0, 0.0, d) == l / 3.0 * (3.0 * d);
    Divide(f * (3.0 * d), 3.0 * d, f);
    Divide(2.0 / 3.0 * (3.0 * d), 3.0 * d, 2.0 / 3.0);
    Divide(l / 3.0 * (3.0 * d), 3.0 * d, l / 3.0);
  }

  lemma FocusSquared(m: Maths, c: Chunk, q: set<string>)
    requires MathsLaws(m) && q != {} && InSymbol(c, q) == q
    ensures var f := SymbolFocus(m, c, q); f >= 0.0 && f * f * |c.symbolTokens| as real == |q| as real
  {
    assert q <= c.symbolTokens && c.symbolTokens != {};
    SubsetSize(q, c.symbolTokens);
    var x := |q| as real / |c.symbolTokens| as real;
    assert x * |c.symbolTokens| as real == |q| as real;
    NonNegative(|q| as real, |c.symbolTokens| as real);
  }

  lemma NormExactly(c: Chunk, average: real)
    requires average >= 1.0
    ensures |c.terms| as real <= average ==> LengthNorm(c, average) == 1.0
    ensures |c.terms| as real >= average ==>
              LengthNorm(c, average) * (0.25 + 0.75 * (|c.terms| as real / average)) == 1.0
  {
    var n := |c.terms| as real;
    var r := n / average;
    assert r * average == n;
    assert 0.75 * n / average == 0.75 * r by {
      assert 0.75 * r * average == 0.75 * n;
    }
    var d := 0.25 + 0.75 * r;
    assert 1.0 - LENGTH_NORM_B + LENGTH_NORM_B * n / average == d;
    NonNegative(n, average);
    Quotient(1.0, d);
    SignOf(r - 1.0, average);
    assert (r - 1.0) * average == n - average;
    assert 1.0 / d * d == 1.0;
    if d <= 1.0 {
      Reciprocal(d, 1.0);
    }
  }

  /** The average length is that of lexicons that are all equally long. */
  lemma {:induction false} EqualTerms(chunks: seq<Chunk>, k: nat)
    requires forall i :: 0 <= i < |chunks| ==> |chunks[i].terms| == k
    ensures TermCount(chunks) == k * |chunks|
  {
    if chunks != [] {
      EqualTerms(chunks[..|chunks| - 1], k);
    }
  }

  lemma AverageOfEqual(chunks: seq<Chunk>, k: nat)
    requires chunks != [] && k >= 1 && forall i :: 0 <= i < |chunks| ==> |chunks[i].terms| == k
    ensures AverageLength(chunks) == k as real
  {
    EqualTerms(chunks, k);
    var n := |chunks| as real;
    assert (k * |chunks|) as real == k as real * n;
    var mean := TermCount(chunks) as real / n;
    assert mean * n == k as real * n;
    SignOf(mean - k as real, n);
  }

  // ----- citations and fusion

  /** The bonuses of a source chunk: 0.55 for a query in the symbol or a cited symbol of at least
      two tokens, 0.35 for a query in the path; a query all of whose terms are in the symbol's
      tokens adds 0.45, in the path's 0.25; and the sum is capped. */
  lemma MetaExactly(c: Chunk, mention: Mention, q: set<string>)
    requires c.role == Source && q != {}
    ensures var cited := mention.symbolInQuery && |c.symbolTokens| >= 2;
            var sum := (if mention.queryInSymbol || cited then 0.55 else 0.0) + (if mention.queryInPath then 0.35 else 0.0)
                       + (if q <= c.symbolTokens then 0.45 else 0.0) + (if q <= c.pathTokens then 0.25 else 0.0);
            (q <= c.symbolTokens || q !! c.symbolTokens) && (q <= c.pathTokens || q !! c.pathTokens) ==>
              Meta(c, mention, q) == if sum <= 1.0 then sum else 1.0
  {
    ShareExactly(q, c.symbolTokens);
    ShareExactly(q, c.pathTokens);
    hide Share;
  }

  lemma ShareExactly(q: set<string>, tokens: set<string>)
    requires q != {}
    ensures q <= tokens ==> Share(q, tokens) == 1.0
    ensures q !! tokens ==> Share(q, tokens) == 0.0
  {
    if q <= tokens {
      assert q * tokens == q;
      Quotient(|q| as real, |q| as real);
    }
    if q !! tokens {
      assert q * tokens == {};
      assert |q * tokens| as real / |q| as real * |q| as real == 0.0;
      SignOf(|q * tokens| as real / |q| as real, |q| as real);
    }
  }

  /** Three quarters lexical, one quarter bonus, and a chunk of a test file counts three
      quarters of a source chunk. */
  lemma FusedExactly(lexical: real, meta: real)
    ensures Fused(lexical, meta, Source) == (3.0 * lexical + meta) / 4.0
    ensures Fused(lexical, meta, Test) == 3.0 * Fused(lexical, meta, Source) / 4.0
    ensures Prior(Source) > Prior(Test) > Prior(Doc) > Prior(Migration) > 0.0
  {
  }
}
