/** The canonical text that `json.dumps` prints for strings and counts. */
module CanonicalJson {
  import opened Text
  import opened JsonScanner

  // ----- strings

  function HexChar(d: int): int {
    if d < 10 then '0' as int + d else 'a' as int + d - 10
  }

  /** How `json.dumps(ensure_ascii=False)` writes one character. */
  function EscapeChar(c: int): (r: Str)
    ensures r != []
  {
    if c == QUOTE || c == BACKSLASH then [BACKSLASH, c]
    else if c == 0x0A then [BACKSLASH, 'n' as int]
    else if c == 0x0D then [BACKSLASH, 'r' as int]
    else if c == 0x09 then [BACKSLASH, 't' as int]
    else if c == 0x0C then [BACKSLASH, 'f' as int]
    else if c == 0x08 then [BACKSLASH, 'b' as int]
    else if 0 <= c < 0x20 then [BACKSLASH, 'u' as int, '0' as int, '0' as int, HexChar(c / 16), HexChar(c % 16)]
    else [c]
  }

  function EscapeText(s: Str): Str {
    if s == [] then [] else EscapeChar(s[0]) + EscapeText(s[1..])
  }

  function DumpString(s: Str): Str {
    [QUOTE] + EscapeText(s) + [QUOTE]
  }

  /** `rest` is what follows position `i` of `t` after `text`. */
  predicate Ahead(t: Str, i: nat, text: Str, rest: Str) {
    i <= |t| && t[i..] == text + rest
  }

  lemma AheadStep(t: Str, i: nat, a: Str, b: Str, rest: Str)
    requires Ahead(t, i, a + b, rest)
    ensures Ahead(t, i, a, b + rest) && Ahead(t, i + |a|, b, rest)
    ensures i + |a| == |t| - |b + rest|
  {
    assert a + b + rest == a + (b + rest);
    assert t[i..][|a|..] == t[i + |a|..];
  }

  lemma AheadFirst(t: Str, i: nat, text: Str, rest: Str)
    requires Ahead(t, i, text, rest) && text != []
    ensures At(t, i, text[0])
  {
    assert t[i..][0] == text[0];
  }

  lemma {:induction false} EscapedHasNoBreak(s: Str)
    ensures 0x0A !in EscapeText(s)
  {
    if s != [] {
      EscapedHasNoBreak(s[1..]);
      assert 0x0A !in EscapeChar(s[0]);
    }
  }

  // ----- integers

  function Digits(n: nat): (r: Str)
    ensures r != [] && forall k :: 0 <= k < |r| ==> IsDigit(r[k])
  {
    if n < 10 then ['0' as int + n] else Digits(n / 10) + ['0' as int + n % 10]
  }

  lemma {:induction false} DigitsValue(n: nat)
    ensures Natural(Digits(n)) == n
    ensures n >= 1 ==> Digits(n)[0] != '0' as int
  {
    if n < 10 {
      assert Digits(n)[..0] == [];
    } else {
      DigitsValue(n / 10);
      assert Digits(n)[..|Digits(n)| - 1] == Digits(n / 10);
    }
  }
}
