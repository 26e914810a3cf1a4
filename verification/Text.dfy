/** Text as Python sees it: a sequence of code points (lone surrogates included),
    and the few facts about whitespace and concatenation the other modules share. */
module Text {

  /** A Python `str`, one integer per code point. */
  type Str = seq<int>

  /** A Python `bytes`, one integer per byte. */
  type Bytes = seq<int>

  datatype Option<+T> = None | Some(value: T)

  /** The code points of a string. */
  function Ascii(s: string): (r: Str)
    ensures |r| == |s|
    ensures forall i :: 0 <= i < |s| ==> r[i] == s[i] as int
  {
    seq(|s|, i requires 0 <= i < |s| => s[i] as int)
  }

  /** `str.isspace()` of one code point: wider than the whitespace of JSON. */
  predicate IsSpace(c: int) {
    || 0x09 <= c <= 0x0D || 0x1C <= c <= 0x20 || c == 0x85 || c == 0xA0
    || c == 0x1680 || 0x2000 <= c <= 0x200A || c == 0x2028 || c == 0x2029
    || c == 0x202F || c == 0x205F || c == 0x3000
  }

  /** The 25 code points with the Unicode property White_Space. */
  const WHITE_SPACE: Str :=
    [0x09, 0x0A, 0x0B, 0x0C, 0x0D, 0x20, 0x85, 0xA0, 0x1680, 0x2000, 0x2001, 0x2002, 0x2003, 0x2004, 0x2005, 0x2006,
     0x2007, 0x2008, 0x2009, 0x200A, 0x2028, 0x2029, 0x202F, 0x205F, 0x3000]

  /** `isspace` takes these and the four separators of ASCII. */
  lemma SpacesExactly(c: int)
    ensures IsSpace(c) <==> c in WHITE_SPACE + [0x1C, 0x1D, 0x1E, 0x1F]
  {
    if IsSpace(c) {
      var k := if c <= 0x0D then c - 0x09 else if c <= 0x1F then 25 + c - 0x1C else if c == 0x20 then 5 else if c == 0x85 then 6
               else if c == 0xA0 then 7 else if c == 0x1680 then 8 else if c <= 0x200A then 9 + c - 0x2000
               else if c == 0x2028 then 20 else if c == 0x2029 then 21 else if c == 0x202F then 22
               else if c == 0x205F then 23 else 24;
      assert (WHITE_SPACE + [0x1C, 0x1D, 0x1E, 0x1F])[k] == c;
    }
  }

  /** The whitespace of section 2 of RFC 8259. */
  predicate IsJsonSpace(c: int) {
    c == 0x20 || c == 0x09 || c == 0x0A || c == 0x0D
  }

  predicate IsDigit(c: int) {
    '0' as int <= c <= '9' as int
  }

  const HEX_LOWER: Str := Ascii("0123456789abcdef")
  const HEX_UPPER: Str := Ascii("0123456789ABCDEF")

  /** The hexadecimal digit d, in either case. */
  predicate HexDigitIs(c: int, d: int) {
    0 <= d < 16 && (c == HEX_LOWER[d] || c == HEX_UPPER[d])
  }

  function StripLeft(s: Str): Str {
    if s != [] && IsSpace(s[0]) then StripLeft(s[1..]) else s
  }

  function StripRight(s: Str): Str {
    if s != [] && IsSpace(s[|s| - 1]) then StripRight(s[..|s| - 1]) else s
  }

  /** `str.strip()`. */
  function Strip(s: Str): Str {
    StripRight(StripLeft(s))
  }

  // ----- what `strip` does

  predicate Blank(s: Str) {
    forall i :: 0 <= i < |s| ==> IsSpace(s[i])
  }

  predicate Stripped(s: Str) {
    s == [] || (!IsSpace(s[0]) && !IsSpace(s[|s| - 1]))
  }

  lemma {:induction false} LeftParts(s: Str) returns (pre: Str)
    ensures s == pre + StripLeft(s) && Blank(pre)
    ensures StripLeft(s) == [] || !IsSpace(StripLeft(s)[0])
  {
    pre := [];
    if s != [] && IsSpace(s[0]) {
      var p := LeftParts(s[1..]);
      pre := [s[0]] + p;
      assert s == [s[0]] + s[1..];
    }
  }

  lemma {:induction false} RightParts(s: Str) returns (post: Str)
    ensures s == StripRight(s) + post && Blank(post)
    ensures StripRight(s) == [] || !IsSpace(StripRight(s)[|StripRight(s)| - 1])
    ensures StripRight(s) != [] ==> StripRight(s)[0] == s[0]
  {
    post := [];
    if s != [] && IsSpace(s[|s| - 1]) {
      var front, c := s[..|s| - 1], s[|s| - 1];
      var p := RightParts(front);
      post := p + [c];
      assert s == front + [c];
      assert StripRight(front) + (p + [c]) == (StripRight(front) + p) + [c];
    }
  }

  lemma {:induction false} LeftOver(pre: Str, s: Str)
    requires Blank(pre)
    ensures StripLeft(pre + s) == StripLeft(s)
  {
    if pre == [] {
      assert pre + s == s;
    } else {
      assert (pre + s)[1..] == pre[1..] + s;
      LeftOver(pre[1..], s);
    }
  }

  lemma {:induction false} RightOver(s: Str, post: Str)
    requires Blank(post)
    ensures StripRight(s + post) == StripRight(s)
  {
    if post == [] {
      assert s + post == s;
    } else {
      var t := s + post;
      assert t[|t| - 1] == post[|post| - 1];
      assert t[..|t| - 1] == s + post[..|post| - 1];
      RightOver(s, post[..|post| - 1]);
    }
  }

  lemma StripPadded(pre: Str, v: Str, post: Str)
    requires Blank(pre) && Stripped(v) && Blank(post)
    ensures Strip(pre + v + post) == v
  {
    assert pre + v + post == pre + (v + post);
    LeftOver(pre, v + post);
    if v == [] {
      assert v + post == post + [];
      LeftOver(post, []);
    } else {
      assert StripLeft(v + post) == v + post;
      RightOver(v, post);
    }
  }

  lemma StripParts(s: Str) returns (pre: Str, post: Str)
    ensures s == pre + Strip(s) + post && Blank(pre) && Blank(post) && Stripped(Strip(s))
  {
    pre := LeftParts(s);
    post := RightParts(StripLeft(s));
    assert s == pre + (Strip(s) + post);
  }

  /** `strip` takes the white space off both ends, and no more. */
  lemma StripExactly(s: Str, core: Str)
    ensures Strip(s) == core <==> exists pre, post :: StrippedOf(s, pre, core, post)
  {
    var p, q := StripParts(s);
    assert StrippedOf(s, p, Strip(s), q);
    if pre, post :| StrippedOf(s, pre, core, post) {
      StripPadded(pre, core, post);
    }
  }

  /** s is core with white space around it. */
  ghost predicate StrippedOf(s: Str, pre: Str, core: Str, post: Str) {
    s == pre + core + post && Blank(pre) && Blank(post) && Stripped(core)
  }

  /** The numbers from a to b. */
  function LineSet(a: int, b: int): (r: set<int>)
    ensures forall line :: line in r <==> a <= line <= b
    decreases b - a
  {
    if b < a then {} else LineSet(a, b - 1) + {b}
  }

  lemma {:induction false} LineSetSize(a: int, b: int)
    ensures |LineSet(a, b)| == if a <= b then b - a + 1 else 0
    decreases b - a
  {
    if a <= b {
      LineSetSize(a, b - 1);
    }
  }

  function Concat(pieces: seq<Str>): Str {
    if pieces == [] then [] else pieces[0] + Concat(pieces[1..])
  }

  lemma ConcatAppend(a: seq<Str>, b: seq<Str>)
    ensures Concat(a + b) == Concat(a) + Concat(b)
  {
    if a == [] {
      assert a + b == b;
    } else {
      assert (a + b)[1..] == a[1..] + b;
      ConcatAppend(a[1..], b);
    }
  }

  /** Lexicographic order, as Python compares strings and as memcmp compares bytes. */
  predicate LexLess(a: seq<int>, b: seq<int>) {
    b != [] && (a == [] || a[0] < b[0] || (a[0] == b[0] && LexLess(a[1..], b[1..])))
  }

  lemma LexIrreflexive(a: seq<int>)
    ensures !LexLess(a, a)
  {
  }

  lemma LexTransitive(a: seq<int>, b: seq<int>, c: seq<int>)
    requires LexLess(a, b) && LexLess(b, c)
    ensures LexLess(a, c)
  {
  }

  lemma LexTotal(a: seq<int>, b: seq<int>)
    ensures a == b || LexLess(a, b) || LexLess(b, a)
  {
    if a != [] && b != [] && a[0] == b[0] {
      LexTotal(a[1..], b[1..]);
      assert a == [a[0]] + a[1..];
      assert b == [b[0]] + b[1..];
    }
  }

  /** A common prefix does not affect the order. */
  lemma LexCommonPrefix(p: seq<int>, a: seq<int>, b: seq<int>)
    ensures LexLess(p + a, p + b) == LexLess(a, b)
  {
    if p == [] {
      assert p + a == a && p + b == b;
    } else {
      assert (p + a)[1..] == p[1..] + a && (p + b)[1..] == p[1..] + b;
      LexCommonPrefix(p[1..], a, b);
    }
  }
}
