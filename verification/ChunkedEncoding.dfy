/** The chunked transfer coding of section 7.1 of RFC 9112, and when the proxy's forwarding
    recognises it. */
module ChunkedEncoding {
  import opened Text
  import opened ProxyFraming
  import H = ProxyHeaders

  // ----- chunk sizes in hexadecimal

  function HexDigit(d: int): int
    requires 0 <= d < 16
  {
    if d < 10 then '0' as int + d else 'a' as int + (d - 10)
  }

  function Hex(n: nat): (r: Bytes)
    ensures r != []
    ensures forall i :: 0 <= i < |r| ==> HexValue(r[i]).Some?
  {
    if n < 16 then [HexDigit(n)] else Hex(n / 16) + [HexDigit(n % 16)]
  }

  predicate PlainDigits(s: Bytes) {
    s != [] && forall i :: 0 <= i < |s| ==> HexValue(s[i]).Some?
  }

  lemma {:induction false} DigitsAppend(a: Bytes, c: int, v: int)
    requires PlainDigits(a) && HexValue(c).Some?
    ensures Digits(a, v).Some? && Digits(a + [c], v) == Some(16 * Digits(a, v).value + HexValue(c).value)
    decreases |a|
  {
    var s, w := a + [c], 16 * v + HexValue(a[0]).value;
    assert s[0] == a[0];
    if |a| == 1 {
      assert s[1..] == [c];
    } else {
      assert s[1] == a[1] && s[1..] == a[1..] + [c];
      DigitsAppend(a[1..], c, w);
    }
  }

  /** Every length can be written. */
  lemma {:induction false} DigitsHex(n: nat)
    ensures PlainDigits(Hex(n)) && Digits(Hex(n), 0) == Some(n)
  {
    if n >= 16 {
      DigitsHex(n / 16);
      DigitsAppend(Hex(n / 16), HexDigit(n % 16), 0);
    }
  }

  // ----- what a numeral is

  lemma HexValueIs(c: int, d: int)
    ensures HexDigitIs(c, d) <==> HexValue(c) == Some(d)
  {
    if 0 <= d < 16 {
      assert HEX_LOWER[d] == if d < 10 then '0' as int + d else 'a' as int + d - 10;
      assert HEX_UPPER[d] == if d < 10 then '0' as int + d else 'A' as int + d - 10;
    }
  }

  /** s is n in hexadecimal: the digits from the last one on are n % 16, n / 16 % 16 and so on, in
      either case, with any leading zeros. */
  predicate Numeral(s: Bytes, n: int)
    decreases |s|
  {
    && s != [] && n >= 0 && HexDigitIs(s[|s| - 1], n % 16)
    && if |s| == 1 then n < 16 else Numeral(s[..|s| - 1], n / 16)
  }

  /** One more digit: the value is 16 times the one before and the digit. */
  lemma DigitsMore(a: Bytes, c: int, n: int)
    requires a != []
    ensures (PlainDigits(a + [c]) && Digits(a + [c], 0) == Some(n)) <==>
            n >= 0 && HexValue(c) == Some(n % 16) && PlainDigits(a) && Digits(a, 0) == Some(n / 16)
  {
    hide Digits, HexValue;
    var s := a + [c];
    assert s[|a|] == c && forall i :: 0 <= i < |a| ==> s[i] == a[i];
    if HexValue(c).Some? && PlainDigits(a) {
      DigitsAppend(a, c, 0);
      PlainHasValue(a, 0);
      HexValueRange(c);
    }
  }

  lemma HexValueRange(c: int)
    requires HexValue(c).Some?
    ensures 0 <= HexValue(c).value < 16
  {
  }

  lemma DigitAlone(c: int, n: int)
    ensures (PlainDigits([c]) && Digits([c], 0) == Some(n)) <==> 0 <= n < 16 && HexValue(c) == Some(n)
  {
    assert [c][0] == c && [c][1..] == [];
  }

  /** MAIN: the digits of a size line are read as the number they are the numeral of, and only
      numerals are plain digits. */
  lemma {:induction false} NumeralReads(s: Bytes, n: int)
    ensures Numeral(s, n) <==> PlainDigits(s) && Digits(s, 0) == Some(n)
    decreases |s|
  {
    hide PlainDigits, Digits, HexValue, HexDigitIs;
    if s == [] {
      NoDigits();
    } else {
      var a, c := s[..|s| - 1], s[|s| - 1];
      assert s == a + [c];
      HexValueIs(c, n % 16);
      if a == [] {
        assert s == [c];
        DigitAlone(c, n);
      } else {
        NumeralReads(a, n / 16);
        DigitsMore(a, c, n);
      }
    }
  }

  lemma NoDigits()
    ensures !PlainDigits([])
  {
  }

  /** Leading zeros change nothing, and every number has a numeral. */
  lemma {:induction false} EveryNumber(n: nat, zeros: nat)
    ensures Numeral(Zeros(zeros) + Hex(n), n)
  {
    if zeros == 0 {
      DigitsHex(n);
      NumeralReads(Hex(n), n);
      assert Zeros(0) + Hex(n) == Hex(n);
    } else {
      EveryNumber(n, zeros - 1);
      LeadingZero(Zeros(zeros - 1) + Hex(n), n);
      assert Zeros(zeros) + Hex(n) == ['0' as int] + (Zeros(zeros - 1) + Hex(n));
    }
  }

  function Zeros(k: nat): (r: Bytes)
    ensures |r| == k && forall i :: 0 <= i < k ==> r[i] == '0' as int
  {
    seq(k, _ => '0' as int)
  }

  lemma {:induction false} LeadingZero(s: Bytes, n: int)
    requires Numeral(s, n)
    ensures Numeral(['0' as int] + s, n)
    decreases |s|
  {
    var z := ['0' as int] + s;
    assert z[..|z| - 1] == ['0' as int] + s[..|s| - 1];
    assert HEX_LOWER[0] == '0' as int;
    if |s| == 1 {
      assert z[..|z| - 1] == ['0' as int];
    } else {
      LeadingZero(s[..|s| - 1], n / 16);
    }
  }

  lemma {:induction false} PlainHasValue(s: Bytes, v: nat)
    requires PlainDigits(s)
    ensures Digits(s, v).Some? && Digits(s, v).value >= 0
    decreases |s|
  {
    if |s| > 1 {
      assert HexValue(s[1]).Some?;
      PlainHasValue(s[1..], 16 * v + HexValue(s[0]).value);
    }
  }

  /** What may follow the digits of a size line the proxy reads: no line feed, and only blanks
      before its first semicolon. */
  predicate ValidExt(ext: Bytes) {
    && (forall i :: 0 <= i < |ext| ==> ext[i] != LF)
    && (forall i :: 0 <= i < |BeforeSemicolon(ext)| ==> ext[i] == 0x20 || ext[i] == 0x09)
  }

  /** A size line: hexadecimal digits in either case, leading zeros allowed, an extension. */
  function SizeLine(size: Bytes, ext: Bytes): Bytes {
    size + ext + CRLF
  }

  lemma {:induction false} BeforeSemicolonAppend(a: Bytes, b: Bytes)
    requires forall i :: 0 <= i < |a| ==> a[i] != SEMICOLON
    ensures BeforeSemicolon(a + b) == a + BeforeSemicolon(b)
  {
    if a == [] {
      assert a + b == b;
    } else {
      assert (a + b)[1..] == a[1..] + b;
      BeforeSemicolonAppend(a[1..], b);
      assert a == [a[0]] + a[1..];
    }
  }

  lemma {:induction false} StripBackBlank(a: Bytes, b: Bytes)
    requires a != [] && !IsBlank(a[|a| - 1])
    requires forall i :: 0 <= i < |b| ==> IsBlank(b[i])
    ensures StripBack(a + b) == a
  {
    if b == [] {
      assert a + b == a;
    } else {
      assert (a + b)[..|a + b| - 1] == a + b[..|b| - 1];
      StripBackBlank(a, b[..|b| - 1]);
    }
  }

  lemma {:induction false} NoSemicolon(s: Bytes)
    ensures forall i :: 0 <= i < |BeforeSemicolon(s)| ==> BeforeSemicolon(s)[i] != SEMICOLON
    ensures |BeforeSemicolon(s)| == |s| ==> forall i :: 0 <= i < |s| ==> s[i] != SEMICOLON
    ensures |BeforeSemicolon(s)| < |s| ==> s[|BeforeSemicolon(s)|] == SEMICOLON
  {
    if s != [] && s[0] != SEMICOLON {
      NoSemicolon(s[1..]);
    }
  }

  lemma CrlfIsBlank()
    ensures BeforeSemicolon(CRLF) == CRLF
  {
    assert CRLF[1..] == [LF] && [LF][1..] == [];
  }

  /** Before its semicolon a size line holds the digits and blanks. */
  lemma SizePart(size: Bytes, ext: Bytes) returns (blanks: Bytes)
    requires PlainDigits(size) && ValidExt(ext)
    ensures BeforeSemicolon(SizeLine(size, ext)) == size + blanks
    ensures forall i :: 0 <= i < |blanks| ==> IsBlank(blanks[i])
  {
    var b := BeforeSemicolon(ext);
    assert SizeLine(size, ext) == size + (ext + CRLF);
    assert forall i :: 0 <= i < |size| ==> HexValue(size[i]).Some? && size[i] != SEMICOLON;
    BeforeSemicolonAppend(size, ext + CRLF);
    blanks := BeforeSemicolon(ext + CRLF);
    NoSemicolon(ext);
    if |b| == |ext| {
      BeforeSemicolonAppend(ext, CRLF);
      CrlfIsBlank();
    } else {
      var tail := ext[|b|..] + CRLF;
      assert ext + CRLF == b + tail;
      BeforeSemicolonAppend(b, tail);
      assert BeforeSemicolon(tail) == [];
      assert blanks == b;
    }
  }

  /** Every such size line is read as the number its digits are the numeral of. */
  lemma ChunkSizeOfLine(size: Bytes, ext: Bytes)
    requires PlainDigits(size) && ValidExt(ext)
    ensures ChunkSize(SizeLine(size, ext)).Some? && Numeral(size, ChunkSize(SizeLine(size, ext)).value)
    ensures forall n :: Numeral(size, n) ==> ChunkSize(SizeLine(size, ext)) == Some(n)
    ensures ChunkSize(SizeLine(size, ext)).value >= 0
  {
    DigitsOfLine(size, ext);
    PlainHasValue(size, 0);
    NumeralReads(size, Digits(size, 0).value);
    forall n | Numeral(size, n) ensures ChunkSize(SizeLine(size, ext)) == Some(n) {
      NumeralReads(size, n);
    }
  }

  lemma DigitsOfLine(size: Bytes, ext: Bytes)
    requires PlainDigits(size) && ValidExt(ext)
    ensures ChunkSize(SizeLine(size, ext)) == Digits(size, 0)
  {
    hide SizeLine, BeforeSemicolon, StripBack, Digits;
    var blanks := SizePart(size, ext);
    assert HexValue(size[0]).Some? && HexValue(size[|size| - 1]).Some?;
    StripBackBlank(size, blanks);
    assert (size + blanks)[0] == size[0];
    assert StripFront(size + blanks) == size + blanks;
    assert |size| >= 2 ==> HexValue(size[1]).Some?;
    assert !HexPrefix(size);
    PlainHasValue(size, 0);
  }

  // ----- which sizes are accepted at all

  const UNDERSCORE := '_' as int

  /** Hexadecimal digits with single underscores between them. */
  predicate Underscored(s: Bytes) {
    && s != [] && HexValue(s[0]).Some? && HexValue(s[|s| - 1]).Some?
    && (forall i :: 0 <= i < |s| ==> HexValue(s[i]).Some? || s[i] == UNDERSCORE)
    && (forall i :: 0 <= i < |s| - 1 ==> s[i] != UNDERSCORE || s[i + 1] != UNDERSCORE)
  }

  lemma {:induction false} DigitsExactly(s: Bytes, v: int)
    ensures Digits(s, v).Some? <==> Underscored(s)
    decreases |s|
  {
    if s != [] && HexValue(s[0]).Some? && |s| > 1 {
      var w := 16 * v + HexValue(s[0]).value;
      if s[1] == UNDERSCORE {
        DigitsExactly(s[2..], w);
        if Underscored(s[2..]) {
          AfterUnderscore(s);
        }
        if Underscored(s) {
          FromUnderscore(s);
        }
      } else {
        DigitsExactly(s[1..], w);
        if Underscored(s[1..]) {
          AfterDigit(s);
        }
        if Underscored(s) {
          FromDigit(s);
        }
      }
    }
  }

  lemma AfterUnderscore(s: Bytes)
    requires |s| > 2 && HexValue(s[0]).Some? && s[1] == UNDERSCORE && Underscored(s[2..])
    ensures Underscored(s)
  {
    var t := s[2..];
    assert forall i :: 2 <= i < |s| ==> s[i] == t[i - 2];
    assert s[|s| - 1] == t[|t| - 1] && s[2] == t[0];
  }

  lemma FromUnderscore(s: Bytes)
    requires Underscored(s) && |s| > 1 && s[1] == UNDERSCORE
    ensures |s| > 2 && Underscored(s[2..])
  {
    assert |s| > 2 ==> s[1] != UNDERSCORE || s[2] != UNDERSCORE;
  }

  lemma FromDigit(s: Bytes)
    requires Underscored(s) && |s| > 1 && s[1] != UNDERSCORE
    ensures Underscored(s[1..])
  {
  }

  lemma AfterDigit(s: Bytes)
    requires |s| > 1 && HexValue(s[0]).Some? && Underscored(s[1..])
    ensures Underscored(s)
  {
    var t := s[1..];
    assert forall i :: 1 <= i < |s| ==> s[i] == t[i - 1];
    assert s[|s| - 1] == t[|t| - 1];
  }

  predicate Sign(s: Bytes) {
    s == [] || s == Ascii("+") || s == Ascii("-")
  }

  predicate Prefix(s: Bytes) {
    s == [] || s == Ascii("0x") || s == Ascii("0X") || s == Ascii("0x_") || s == Ascii("0X_")
  }

  /** s without its underscores. */
  function Without(s: Bytes): Bytes {
    if s == [] then [] else (if s[0] == UNDERSCORE then [] else [s[0]]) + Without(s[1..])
  }

  /** Single underscores, and none at the ends. */
  predicate SingleInside(s: Bytes) {
    && s != [] && s[0] != UNDERSCORE && s[|s| - 1] != UNDERSCORE
    && (forall i :: 0 <= i < |s| - 1 ==> s[i] != UNDERSCORE || s[i + 1] != UNDERSCORE)
  }

  /** s is what Python takes for the number v: a sign, a prefix, and a numeral with single
      underscores between its digits. */
  ghost predicate Parts(s: Bytes, v: int, sign: Bytes, prefix: Bytes, digits: Bytes) {
    && s == sign + prefix + digits && Sign(sign) && Prefix(prefix) && SingleInside(digits)
    && Numeral(Without(digits), if sign == Ascii("-") then 0 - v else v)
  }

  lemma {:induction false} WithoutPlain(s: Bytes)
    requires forall i :: 0 <= i < |s| ==> s[i] != UNDERSCORE
    ensures Without(s) == s
  {
    if s != [] {
      WithoutPlain(s[1..]);
      assert s == [s[0]] + s[1..];
    }
  }

  lemma {:induction false} WithoutMembers(s: Bytes)
    ensures forall c :: c in Without(s) <==> c in s && c != UNDERSCORE
  {
    if s != [] {
      WithoutMembers(s[1..]);
      assert s == [s[0]] + s[1..];
    }
  }

  lemma WithoutHead(s: Bytes)
    requires |s| > 1 && s[0] != UNDERSCORE
    ensures Without(s) == [s[0]] + Without(s[1..])
    ensures s[1] == UNDERSCORE ==> Without(s) == [s[0]] + Without(s[2..])
  {
    assert s[1..][1..] == s[2..];
  }

  lemma DigitsHead(s: Bytes, v: int)
    requires |s| > 1 && HexValue(s[0]).Some?
    ensures Digits(s, v) == Digits(if s[1] == UNDERSCORE then s[2..] else s[1..], 16 * v + HexValue(s[0]).value)
  {
  }

  /** Underscores add nothing to the value. */
  lemma {:induction false} DigitsWithout(s: Bytes, v: int)
    requires Underscored(s)
    ensures PlainDigits(Without(s)) && Digits(s, v) == Digits(Without(s), v)
    decreases |s|
  {
    if |s| == 1 {
      WithoutPlain(s);
    } else {
      hide HexValue, Digits, Without, PlainDigits;
      var rest := if s[1] == UNDERSCORE then s[2..] else s[1..];
      if s[1] == UNDERSCORE {
        FromUnderscore(s);
      } else {
        FromDigit(s);
      }
      NoUnderscoreFirst(s);
      WithoutHead(s);
      DigitsHead(s, v);
      DigitsWithout(rest, 16 * v + HexValue(s[0]).value);
      OneDigit(s[0], Without(rest), v);
    }
  }

  lemma NoUnderscoreFirst(s: Bytes)
    requires Underscored(s)
    ensures s[0] != UNDERSCORE && HexValue(s[0]).Some?
  {
  }

  lemma OneDigit(d: int, rest: Bytes, v: int)
    requires HexValue(d).Some? && PlainDigits(rest)
    ensures PlainDigits([d] + rest) && Digits([d] + rest, v) == Digits(rest, 16 * v + HexValue(d).value)
  {
    assert ([d] + rest)[1..] == rest && HexValue(rest[0]).Some?;
  }

  lemma UnderscoredIs(s: Bytes)
    ensures Underscored(s) <==> SingleInside(s) && PlainDigits(Without(s))
  {
    WithoutMembers(s);
    if Underscored(s) {
      DigitsWithout(s, 0);
    }
    if SingleInside(s) && PlainDigits(Without(s)) {
      forall i | 0 <= i < |s| ensures HexValue(s[i]).Some? || s[i] == UNDERSCORE {
        assert s[i] in s;
      }
    }
  }

  lemma UnderscoredValue(s: Bytes, n: int)
    ensures Digits(s, 0) == Some(n) <==> SingleInside(s) && Numeral(Without(s), n)
  {
    hide Digits, Underscored, PlainDigits, Numeral;
    DigitsExactly(s, 0);
    UnderscoredIs(s);
    NumeralReads(Without(s), n);
    if Underscored(s) {
      DigitsWithout(s, 0);
    }
  }

  /** The parts that `int(_, 16)` splits its text into. */
  lemma HexParts(s: Bytes) returns (sign: Bytes, prefix: Bytes, digits: Bytes)
    ensures s == sign + prefix + digits && Sign(sign) && Prefix(prefix)
    ensures PythonHex(s) == SignedDigits(sign, digits)
  {
    hide *;
    var t;
    sign, t := SplitSign(s);
    prefix, digits := PrefixOf(t);
    ReadsSigned(s, sign, t, digits);
    Associative(sign, prefix, digits);
  }

  lemma Associative(a: Bytes, b: Bytes, c: Bytes)
    ensures a + (b + c) == a + b + c
  {
  }

  lemma ReadsSigned(s: Bytes, sign: Bytes, t: Bytes, digits: Bytes)
    requires t == if s != [] && (s[0] == '+' as int || s[0] == '-' as int) then s[1..] else s
    requires sign == Ascii("-") <==> s != [] && s[0] == '-' as int
    requires digits == if HexPrefix(t) then (if |t| > 2 && t[2] == UNDERSCORE then t[3..] else t[2..]) else t
    ensures PythonHex(s) == SignedDigits(sign, digits)
  {
    hide Digits, HexPrefix;
  }

  lemma SplitSign(s: Bytes) returns (sign: Bytes, t: Bytes)
    ensures s == sign + t && Sign(sign) && (sign == Ascii("-") <==> s != [] && s[0] == '-' as int)
    ensures t == if s != [] && (s[0] == '+' as int || s[0] == '-' as int) then s[1..] else s
  {
    var signed := s != [] && (s[0] == '+' as int || s[0] == '-' as int);
    sign := if signed then [s[0]] else [];
    t := if signed then s[1..] else s;
  }

  lemma PrefixOf(t: Bytes) returns (prefix: Bytes, digits: Bytes)
    ensures t == prefix + digits && Prefix(prefix)
    ensures digits == if HexPrefix(t) then (if |t| > 2 && t[2] == UNDERSCORE then t[3..] else t[2..]) else t
  {
    var n := if HexPrefix(t) then (if |t| > 2 && t[2] == UNDERSCORE then 3 else 2) else 0;
    prefix, digits := t[..n], t[n..];
    assert n == 2 ==> prefix == [t[0], t[1]];
    assert n == 3 ==> prefix == [t[0], t[1], t[2]];
  }

  function SignedDigits(sign: Bytes, digits: Bytes): Option<int> {
    match Digits(digits, 0)
    case None => None
    case Some(n) => Some(if sign == Ascii("-") then 0 - n else n)
  }

  /** Such parts determine the digits. */
  lemma PartsAreHex(s: Bytes, sign: Bytes, prefix: Bytes, digits: Bytes)
    requires s == sign + prefix + digits && Sign(sign) && Prefix(prefix) && Underscored(digits)
    ensures PythonHex(s) == SignedDigits(sign, digits)
  {
    hide PythonHex, Digits, Underscored, HexPrefix, Sign, Prefix, SignedDigits;
    var t := prefix + digits;
    assert s == sign + t && s[|sign|..] == t && t[|prefix|..] == digits;
    UnderscoredStarts(digits);
    UnsignedHex(s, sign, t, prefix, digits);
  }

  lemma UnderscoredStarts(digits: Bytes)
    requires Underscored(digits)
    ensures digits != [] && HexValue(digits[0]).Some? && !HexPrefix(digits)
  {
  }

  lemma UnsignedHex(s: Bytes, sign: Bytes, t: Bytes, prefix: Bytes, digits: Bytes)
    requires s == sign + t && s[|sign|..] == t && t == prefix + digits && t[|prefix|..] == digits
    requires Sign(sign) && Prefix(prefix) && digits != [] && HexValue(digits[0]).Some? && !HexPrefix(digits)
    ensures PythonHex(s) == SignedDigits(sign, digits)
  {
    hide Digits;
    AfterPrefix(t, prefix, digits);
    assert t[0] == if prefix == [] then digits[0] else '0' as int;
    SignOf(s, sign, t);
  }

  lemma SignOf(s: Bytes, sign: Bytes, t: Bytes)
    requires s == sign + t && s[|sign|..] == t && Sign(sign) && t != [] && HexValue(t[0]).Some?
    ensures var signed := s[0] == '+' as int || s[0] == '-' as int;
            (signed <==> sign != []) && (if signed then s[1..] else s) == t
            && (signed && s[0] == '-' as int <==> sign == Ascii("-"))
  {
    assert sign == Ascii("-") ==> s[0] == '-' as int;
    assert sign == Ascii("+") ==> s[0] == '+' as int && sign[0] != Ascii("-")[0];
  }

  /** What `int` strips as a prefix. */
  lemma AfterPrefix(t: Bytes, prefix: Bytes, digits: Bytes)
    requires t == prefix + digits && t[|prefix|..] == digits && Prefix(prefix)
    requires digits != [] && HexValue(digits[0]).Some? && !HexPrefix(digits)
    ensures (if HexPrefix(t) then (if |t| > 2 && t[2] == UNDERSCORE then t[3..] else t[2..]) else t) == digits
    ensures t != [] && HexValue(t[0]).Some?
  {
    if prefix == [] {
      assert t == digits;
    } else {
      assert t[0] == prefix[0] == '0' as int && t[1] == prefix[1];
      assert |prefix| == 2 ==> t[2] == digits[0];
      assert |prefix| == 3 ==> t[2] == prefix[2];
    }
  }

  /** MAIN: exactly what `int(_, 16)` takes for a number: a sign, a prefix, and a numeral with
      single underscores; the RFC allows the numeral only. */
  lemma PythonHexExactly(s: Bytes, v: int)
    ensures PythonHex(s) == Some(v) <==> exists sign, prefix, digits :: Parts(s, v, sign, prefix, digits)
    ensures Numeral(s, v) <==> Parts(s, v, [], [], s) && UNDERSCORE !in s
  {
    hide PythonHex, Digits, Underscored, SingleInside, Without, Numeral, Prefix;
    if PythonHex(s) == Some(v) {
      var sign, prefix, digits := HexParts(s);
      UnderscoredValue(digits, if sign == Ascii("-") then 0 - v else v);
      assert Parts(s, v, sign, prefix, digits);
    }
    if a, b, c :| Parts(s, v, a, b, c) {
      UnderscoredValue(c, if a == Ascii("-") then 0 - v else v);
      DigitsExactly(c, 0);
      PartsAreHex(s, a, b, c);
    }
    NumeralIsParts(s, v);
  }

  lemma NumeralIsParts(s: Bytes, v: int)
    ensures Numeral(s, v) <==> Parts(s, v, [], [], s) && UNDERSCORE !in s
  {
    hide Numeral, Without;
    assert s == [] + [] + s && [] != Ascii("-");
    NumeralReads(s, v);
    PlainIsUnderscored(s);
    if UNDERSCORE !in s {
      WithoutPlain(s);
      UnderscoredIs(s);
    }
  }

  /** White space as `bytes.strip` takes it. */
  predicate BlankByte(c: int) {
    c in {0x09, 0x0A, 0x0B, 0x0C, 0x0D, 0x20}
  }

  predicate AllBlank(s: Bytes) {
    forall i :: 0 <= i < |s| ==> BlankByte(s[i])
  }

  /** A size line: white space around a number, and then the end or a semicolon. */
  ghost predicate LineParts(line: Bytes, v: int, pre: Bytes, core: Bytes, post: Bytes, rest: Bytes) {
    && line == pre + core + post + rest && SEMICOLON !in pre + core + post
    && (rest != [] ==> rest[0] == SEMICOLON)
    && AllBlank(pre) && AllBlank(post) && PythonHex(core) == Some(v)
    && core != [] && !BlankByte(core[0]) && !BlankByte(core[|core| - 1])
  }

  lemma {:induction false} StripFrontParts(s: Bytes) returns (pre: Bytes)
    ensures s == pre + StripFront(s) && AllBlank(pre)
    ensures StripFront(s) != [] ==> !IsBlank(StripFront(s)[0])
  {
    pre := [];
    if s != [] && IsBlank(s[0]) {
      var p := StripFrontParts(s[1..]);
      pre := [s[0]] + p;
      assert s == [s[0]] + s[1..];
    }
  }

  lemma {:induction false} StripBackParts(s: Bytes) returns (post: Bytes)
    ensures s == StripBack(s) + post && AllBlank(post)
    ensures StripBack(s) != [] ==> !IsBlank(StripBack(s)[|StripBack(s)| - 1]) && StripBack(s)[0] == s[0]
  {
    post := [];
    if s != [] && IsBlank(s[|s| - 1]) {
      var c := s[|s| - 1];
      var p := StripBackParts(s[..|s| - 1]);
      post := p + [c];
      assert s == s[..|s| - 1] + [c];
      assert StripBack(s) + (p + [c]) == StripBack(s) + p + [c];
    }
  }

  lemma {:induction false} StripFrontBlank(pre: Bytes, s: Bytes)
    requires AllBlank(pre) && s != [] && !IsBlank(s[0])
    ensures StripFront(pre + s) == s
  {
    if pre == [] {
      assert pre + s == s;
    } else {
      assert (pre + s)[1..] == pre[1..] + s;
      StripFrontBlank(pre[1..], s);
    }
  }

  /** MAIN: exactly what the proxy reads as the size v. */
  lemma ChunkSizeExactly(line: Bytes, v: int)
    ensures ChunkSize(line) == Some(v) <==>
            exists pre, core, post, rest :: LineParts(line, v, pre, core, post, rest)
  {
    hide PythonHex, StripBack, StripFront, BeforeSemicolon;
    if ChunkSize(line) == Some(v) {
      var head := BeforeSemicolon(line);
      NoSemicolon(line);
      var pre := StripFrontParts(head);
      var post := StripBackParts(StripFront(head));
      var core := StripBack(StripFront(head));
      NotEmptyHex();
      var rest := line[|head|..];
      assert head == pre + (core + post) && pre + (core + post) == pre + core + post;
      assert line == head + rest;
      assert SEMICOLON !in head;
      assert LineParts(line, v, pre, core, post, rest);
    }
    if pre, core, post, rest :| LineParts(line, v, pre, core, post, rest) {
      LinePartsRead(line, v, pre, core, post, rest);
    }
  }

  lemma NotEmptyHex()
    ensures PythonHex([]) == None
  {
  }

  lemma LinePartsRead(line: Bytes, v: int, pre: Bytes, core: Bytes, post: Bytes, rest: Bytes)
    requires LineParts(line, v, pre, core, post, rest)
    ensures ChunkSize(line) == Some(v)
  {
    hide PythonHex, StripBack, StripFront, BeforeSemicolon;
    var head := pre + core + post;
    assert forall i :: 0 <= i < |head| ==> head[i] in head;
    BeforeSemicolonAppend(head, rest);
    assert BeforeSemicolon(rest) == [] by {
      NoSemicolon(rest);
    }
    assert head + [] == head;
    StripFrontBlank(pre, core + post);
    assert pre + (core + post) == head;
    StripBackBlank(core, post);
  }

  lemma PlainIsUnderscored(s: Bytes)
    ensures PlainDigits(s) <==> Underscored(s) && UNDERSCORE !in s
  {
  }

  /** Python's `int(_, 16)` also takes sizes the RFC does not allow. */
  lemma AcceptsMoreSizes()
    ensures ChunkSize(Ascii("0x5") + CRLF) == Some(5)
    ensures ChunkSize(Ascii("+5") + CRLF) == Some(5)
    ensures ChunkSize(Ascii("1_0") + CRLF) == Some(16)
  {
    SmallSize(Ascii("0x5"));
    SmallSize(Ascii("+5"));
    SmallSize(Ascii("1_0"));
    assert Ascii("0x5")[2..] == Ascii("5") && Ascii("+5")[1..] == Ascii("5") && Ascii("1_0")[2..] == Ascii("0");
    assert Digits(Ascii("5"), 0) == Some(5) && Digits(Ascii("0"), 1) == Some(16);
  }

  lemma SmallSize(s: Bytes)
    requires s != [] && forall i :: 0 <= i < |s| ==> s[i] != SEMICOLON && !IsBlank(s[i])
    ensures ChunkSize(s + CRLF) == PythonHex(s)
  {
    BeforeSemicolonAppend(s, CRLF);
    CrlfIsBlank();
    StripBackBlank(s, CRLF);
  }

  // ----- messages

  datatype Chunk = Chunk(size: Bytes, ext: Bytes, data: Bytes)

  /** A body in chunks, its lines as wide as the proxy takes them. */
  datatype Message = Message(chunks: seq<Chunk>, lastSize: Bytes, lastExt: Bytes, trailers: seq<Bytes>)

  /** Any line but the empty one: it ends with its only line feed. */
  predicate ValidTrailer(t: Bytes) {
    t != [] && t[|t| - 1] == LF && (forall i :: 0 <= i < |t| - 1 ==> t[i] != LF) && t != CRLF
  }

  /** The digits of a size line are a numeral of n. */
  predicate SizeIs(size: Bytes, n: nat)
    ensures SizeIs(size, n) ==> PlainDigits(size)
  {
    NumeralReads(size, n);
    Numeral(size, n)
  }

  predicate ValidChunk(c: Chunk) {
    SizeIs(c.size, |c.data|) && ValidExt(c.ext) && c.data != []
  }

  predicate ValidMessage(m: Message) {
    && (forall i :: 0 <= i < |m.chunks| ==> ValidChunk(m.chunks[i]))
    && SizeIs(m.lastSize, 0) && ValidExt(m.lastExt)
    && (forall i :: 0 <= i < |m.trailers| ==> ValidTrailer(m.trailers[i]))
  }

  function EncodeTrailers(ts: seq<Bytes>): Bytes {
    if ts == [] then CRLF else ts[0] + EncodeTrailers(ts[1..])
  }

  function ChunkLine(c: Chunk): Bytes {
    SizeLine(c.size, c.ext)
  }

  function LastLine(m: Message): Bytes {
    SizeLine(m.lastSize, m.lastExt)
  }

  function Encode(m: Message): Bytes
    decreases |m.chunks|
  {
    if m.chunks == [] then LastLine(m) + EncodeTrailers(m.trailers)
    else ChunkLine(m.chunks[0]) + m.chunks[0].data + CRLF + Encode(m.(chunks := m.chunks[1..]))
  }

  /** The bytes of all chunk-size lines, trailers and the final empty line together. */
  function HeaderBytes(m: Message): nat
    decreases |m.chunks|
  {
    if m.chunks == [] then |LastLine(m)| + |EncodeTrailers(m.trailers)|
    else |ChunkLine(m.chunks[0])| + HeaderBytes(m.(chunks := m.chunks[1..]))
  }

  lemma {:induction false} LineEndAt(p: Bytes, line: Bytes, rest: Bytes, j: nat)
    requires line != [] && j < |line| && line[|line| - 1] == LF && forall i :: 0 <= i < |line| - 1 ==> line[i] != LF
    ensures LineEnd(p + line + rest, |p| + j) == |p| + |line|
    decreases |line| - j
  {
    assert (p + line + rest)[|p| + j] == line[j];
    if j < |line| - 1 {
      LineEndAt(p, line, rest, j + 1);
    }
  }

  lemma {:induction false} TrailersOfEncoding(p: Bytes, ts: seq<Bytes>, rest: Bytes, h: nat, max: nat)
    requires forall i :: 0 <= i < |ts| ==> ValidTrailer(ts[i])
    ensures var e := EncodeTrailers(ts);
            Trailers(p + e + rest, |p|, h, max) == if h + |e| <= max then Some(|p| + |e|) else None
    decreases |ts|
  {
    hide LineEnd;
    var e := EncodeTrailers(ts);
    var s := p + e + rest;
    if ts == [] {
      LineEndAt(p, CRLF, rest, 0);
      assert s[|p|..|p| + 2] == CRLF;
    } else {
      var t, more := ts[0], EncodeTrailers(ts[1..]);
      assert s == p + t + (more + rest);
      LineEndAt(p, t, more + rest, 0);
      assert s[|p|..|p| + |t|] == t;
      assert s == (p + t) + more + rest;
      TrailersOfEncoding(p + t, ts[1..], rest, h + |t|, max);
    }
  }

  /** A size line is one line, and is read as its number. */
  lemma LineOfSize(size: Bytes, ext: Bytes, n: nat)
    requires SizeIs(size, n) && ValidExt(ext)
    ensures PlainDigits(size) && ChunkSize(SizeLine(size, ext)) == Some(n)
    ensures var line := SizeLine(size, ext);
            |line| >= 3 && line[|line| - 1] == LF && forall i :: 0 <= i < |line| - 1 ==> line[i] != LF
  {
    hide Numeral, ChunkSize, ValidExt, SizeLine, PlainDigits;
    ChunkSizeOfLine(size, ext);
    SizeLineIsLine(size, ext);
  }

  lemma SizeLineIsLine(size: Bytes, ext: Bytes)
    requires PlainDigits(size) && ValidExt(ext)
    ensures var line := SizeLine(size, ext);
            |line| >= 3 && line[|line| - 1] == LF && forall i :: 0 <= i < |line| - 1 ==> line[i] != LF
  {
    assert forall i :: 0 <= i < |size| ==> HexValue(size[i]).Some? && size[i] != LF;
  }

  /** One chunk of a frame whose size line is known. */
  lemma FrameStep(p: Bytes, line: Bytes, tail: Bytes, size: nat, h: nat, max: nat)
    requires |line| >= 3 && line[|line| - 1] == LF && forall i :: 0 <= i < |line| - 1 ==> line[i] != LF
    requires ChunkSize(line) == Some(size)
    ensures var s, e := p + line + tail, |p| + |line|;
            Frame(s, |p|, h, max) ==
            if |line| > max then None
            else if size == 0 then Trailers(s, e, h + |line|, max)
            else if e + size + 2 > |s| then None
            else Frame(s, e + size + 2, h + |line|, max)
  {
    hide LineEnd, ChunkSize, Trailers;
    LineEndAt(p, line, tail, 0);
    assert (p + line + tail)[|p|..|p| + |line|] == line;
  }

  lemma {:induction false} FrameOfEncoding(p: Bytes, m: Message, rest: Bytes, h: nat, max: nat)
    requires ValidMessage(m)
    ensures Frame(p + Encode(m) + rest, |p|, h, max) == if h + HeaderBytes(m) <= max then Some(|p| + |Encode(m)|) else None
    decreases |m.chunks|
  {
    hide Frame, ChunkSize, SizeLine, Trailers, SizeIs, PlainDigits, ValidExt, ValidTrailer;
    var s := p + Encode(m) + rest;
    if m.chunks == [] {
      var line, more := LastLine(m), EncodeTrailers(m.trailers);
      LineOfSize(m.lastSize, m.lastExt, 0);
      assert s == p + line + (more + rest);
      FrameStep(p, line, more + rest, 0, h, max);
      assert s == (p + line) + more + rest;
      TrailersOfEncoding(p + line, m.trailers, rest, h + |line|, max);
    } else {
      var c, m' := m.chunks[0], m.(chunks := m.chunks[1..]);
      var line, more := ChunkLine(c), Encode(m');
      assert ValidChunk(c);
      LineOfSize(c.size, c.ext, |c.data|);
      assert s == p + line + (c.data + CRLF + more + rest);
      FrameStep(p, line, c.data + CRLF + more + rest, |c.data|, h, max);
      assert s == (p + line + c.data + CRLF) + more + rest;
      FrameOfEncoding(p + line + c.data + CRLF, m', rest, h + |line|, max);
    }
  }

  /** MAIN: every such message, whatever follows it, is delimited exactly when its
      chunk-size lines, trailers and final line together fit in max_header_bytes, and is
      refused otherwise. */
  lemma MessageIsFramed(m: Message, rest: Bytes, max: nat)
    requires ValidMessage(m)
    ensures Frame(Encode(m) + rest, 0, 0, max) == if HeaderBytes(m) <= max then Some(|Encode(m)|) else None
  {
    assert [] + Encode(m) + rest == Encode(m) + rest;
    FrameOfEncoding([], m, rest, 0, max);
  }

  /** So the number of chunks is bounded: however small, max / 3 of them are too many. */
  lemma {:induction false} ManyChunksRefused(m: Message, rest: Bytes, max: nat)
    requires ValidMessage(m) && 3 * |m.chunks| + 5 > max
    ensures Frame(Encode(m) + rest, 0, 0, max) == None
  {
    ManyChunks(m);
    MessageIsFramed(m, rest, max);
  }

  lemma {:induction false} ManyChunks(m: Message)
    requires ValidMessage(m)
    ensures HeaderBytes(m) >= 3 * |m.chunks| + 5
    decreases |m.chunks|
  {
    if m.chunks == [] {
      SizeLineIsLine(m.lastSize, m.lastExt);
      TrailersLength(m.trailers);
    } else {
      assert ValidChunk(m.chunks[0]);
      SizeLineIsLine(m.chunks[0].size, m.chunks[0].ext);
      ManyChunks(m.(chunks := m.chunks[1..]));
    }
  }

  lemma {:induction false} TrailersLength(ts: seq<Bytes>)
    ensures |EncodeTrailers(ts)| >= 2
  {
    if ts != [] {
      TrailersLength(ts[1..]);
    }
  }

  // ----- the grammar of section 7.1 of RFC 9112

  const DQUOTE := '"' as int
  const BACKSLASH := '\\' as int
  const EQUALS := '=' as int

  predicate Blanks(s: Bytes) {
    forall i :: 0 <= i < |s| ==> s[i] == 0x20 || s[i] == 0x09
  }

  /** HTAB, SP, VCHAR or obs-text. */
  predicate FieldByte(b: int) {
    b == 0x09 || 0x20 <= b <= 0x7E || 0x80 <= b <= 0xFF
  }

  /** What follows the opening quote of a quoted-string (section 5.6.4 of RFC 9110). */
  predicate QuotedRest(s: Bytes)
    decreases |s|
  {
    && s != [] && FieldByte(s[0])
    && if s[0] == DQUOTE then |s| == 1
       else if s[0] == BACKSLASH then |s| >= 2 && FieldByte(s[1]) && QuotedRest(s[2..])
       else QuotedRest(s[1..])
  }

  predicate QuotedString(s: Bytes) {
    s != [] && s[0] == DQUOTE && QuotedRest(s[1..])
  }

  /** `BWS "=" BWS ( token / quoted-string )` */
  datatype ExtValue = ExtValue(pre: Bytes, mid: Bytes, text: Bytes)

  /** `BWS ";" BWS token`, and its value if there is one. */
  datatype ExtPart = ExtPart(pre: Bytes, mid: Bytes, name: Bytes, value: Option<ExtValue>)

  predicate ValidPart(p: ExtPart) {
    && Blanks(p.pre) && Blanks(p.mid) && H.Token(p.name)
    && (p.value.Some? ==>
          var v := p.value.value;
          Blanks(v.pre) && Blanks(v.mid) && (H.Token(v.text) || QuotedString(v.text)))
  }

  function PrintValue(v: Option<ExtValue>): Bytes {
    match v
    case None => []
    case Some(w) => w.pre + [EQUALS] + w.mid + w.text
  }

  function PrintPart(p: ExtPart): Bytes {
    p.pre + [SEMICOLON] + p.mid + p.name + PrintValue(p.value)
  }

  function PrintParts(ps: seq<ExtPart>): Bytes {
    if ps == [] then [] else PrintPart(ps[0]) + PrintParts(ps[1..])
  }

  predicate ValidParts(ps: seq<ExtPart>) {
    forall i :: 0 <= i < |ps| ==> ValidPart(ps[i])
  }

  /** A chunk extension, section 7.1.1. */
  ghost predicate ChunkExt(ext: Bytes) {
    exists ps :: ValidParts(ps) && ext == PrintParts(ps)
  }

  /** A field line and its line break, section 5: a token, a colon and a value of field bytes. */
  predicate FieldLine(t: Bytes) {
    && EndsCrlf(t)
    && var body := t[..|t| - 2];
       var n := H.FirstColon(body);
       n < |body| && H.Token(body[..n]) && forall i :: n < i < |body| ==> FieldByte(body[i])
  }

  predicate EndsCrlf(line: Bytes) {
    |line| >= 2 && line[|line| - 2..] == CRLF
  }

  predicate NoFeed(s: Bytes) {
    forall i :: 0 <= i < |s| ==> s[i] != LF
  }

  lemma {:induction false} QuotedHasNoFeed(s: Bytes)
    requires QuotedRest(s)
    ensures NoFeed(s)
    decreases |s|
  {
    if s[0] == BACKSLASH {
      QuotedHasNoFeed(s[2..]);
      assert forall i :: 2 <= i < |s| ==> s[i] == s[2..][i - 2];
    } else if s[0] != DQUOTE {
      QuotedHasNoFeed(s[1..]);
      assert forall i :: 1 <= i < |s| ==> s[i] == s[1..][i - 1];
    }
  }

  lemma TokenHasNoFeed(s: Bytes)
    requires H.Token(s)
    ensures NoFeed(s)
  {
    H.TokenIsPlain(s);
    assert forall i :: 0 <= i < |s| ==> s[i] in s;
  }

  lemma PartHasNoFeed(p: ExtPart)
    requires ValidPart(p)
    ensures NoFeed(PrintPart(p))
  {
    TokenHasNoFeed(p.name);
    if p.value.Some? {
      var text := p.value.value.text;
      if H.Token(text) {
        TokenHasNoFeed(text);
      } else {
        QuotedHasNoFeed(text[1..]);
        assert forall i :: 1 <= i < |text| ==> text[i] == text[1..][i - 1];
      }
    }
  }

  lemma {:induction false} PartsHaveNoFeed(ps: seq<ExtPart>)
    requires ValidParts(ps)
    ensures NoFeed(PrintParts(ps))
  {
    hide ValidPart, PrintPart;
    if ps != [] {
      PartHasNoFeed(ps[0]);
      PartsHaveNoFeed(ps[1..]);
    }
  }

  lemma FirstSemicolon(pre: Bytes, tail: Bytes)
    requires Blanks(pre)
    ensures BeforeSemicolon(pre + ([SEMICOLON] + tail)) == pre
  {
    BeforeSemicolonAppend(pre, [SEMICOLON] + tail);
  }

  lemma StartsWithPart(ps: seq<ExtPart>) returns (tail: Bytes)
    requires ps != [] && ValidParts(ps)
    ensures Blanks(ps[0].pre) && PrintParts(ps) == ps[0].pre + ([SEMICOLON] + tail)
  {
    hide PrintValue;
    tail := ps[0].mid + ps[0].name + PrintValue(ps[0].value) + PrintParts(ps[1..]);
  }

  /** A chunk extension of the RFC is one the proxy skips. */
  lemma ExtIsValid(ext: Bytes)
    requires ChunkExt(ext)
    ensures ValidExt(ext)
  {
    hide PrintParts, ValidParts;
    var ps: seq<ExtPart> :| ValidParts(ps) && ext == PrintParts(ps);
    PartsHaveNoFeed(ps);
    if ps == [] {
      NothingPrinted();
    } else {
      var tail := StartsWithPart(ps);
      FirstSemicolon(ps[0].pre, tail);
    }
  }

  lemma NothingPrinted()
    ensures PrintParts([]) == []
  {
  }

  /** A field line is a trailer line the proxy forwards. */
  lemma FieldLineIsValid(t: Bytes)
    requires FieldLine(t)
    ensures ValidTrailer(t)
  {
    var body := t[..|t| - 2];
    var n := H.FirstColon(body);
    TokenHasNoFeed(body[..n]);
    assert t[|t| - 1] == t[|t| - 2..][1] && t[|t| - 2] == t[|t| - 2..][0];
    forall i | 0 <= i < |t| - 1 ensures t[i] != LF {
      if i < n {
        assert t[i] == body[..n][i];
      } else if i < |body| {
        assert t[i] == body[i];
      }
    }
  }

  // ----- when what was accepted is a message of the RFC

  /** How many hexadecimal digits s starts with. */
  function HexRun(s: Bytes): (n: nat)
    ensures n <= |s| && (forall i :: 0 <= i < n ==> HexValue(s[i]).Some?)
    ensures n < |s| ==> HexValue(s[n]) == None
  {
    if s == [] || HexValue(s[0]) == None then 0 else 1 + HexRun(s[1..])
  }

  /** The line is plain digits, a chunk extension and CRLF. */
  ghost predicate PlainSizeLine(line: Bytes) {
    && EndsCrlf(line)
    && var body := line[..|line| - 2];
       HexRun(body) >= 1 && ChunkExt(body[HexRun(body)..])
  }

  /** Every line up to the empty one is a field line. */
  predicate StrictTrailers(s: Bytes, i: nat)
    requires i <= |s|
    decreases |s| - i
  {
    var e := LineEnd(s, i);
    e > i && (s[i..e] == CRLF || (FieldLine(s[i..e]) && StrictTrailers(s, e)))
  }

  /** From i on every size line is plain, the two bytes after every chunk, which are forwarded
      unread, are CRLF, and every trailer is a field line. */
  ghost predicate Strict(s: Bytes, i: nat)
    requires i <= |s|
    decreases |s| - i
  {
    var e := LineEnd(s, i);
    && PlainSizeLine(s[i..e])
    && match ChunkSize(s[i..e])
       case None => false
       case Some(size) =>
         if size <= 0 then size == 0 && StrictTrailers(s, e)
         else e + size + 2 <= |s| && s[e + size..e + size + 2] == CRLF && Strict(s, e + size + 2)
  }

  ghost predicate RfcChunk(c: Chunk) {
    SizeIs(c.size, |c.data|) && ChunkExt(c.ext) && c.data != []
  }

  /** A chunked body of section 7.1: sizes in hexadecimal digits, extensions and trailers as the
      grammar has them. */
  ghost predicate RfcMessage(m: Message) {
    && (forall i :: 0 <= i < |m.chunks| ==> RfcChunk(m.chunks[i]))
    && SizeIs(m.lastSize, 0) && ChunkExt(m.lastExt)
    && (forall i :: 0 <= i < |m.trailers| ==> FieldLine(m.trailers[i]))
  }

  lemma RfcMessageIsValid(m: Message)
    requires RfcMessage(m)
    ensures ValidMessage(m)
  {
    hide ChunkExt, ValidExt, FieldLine, ValidTrailer, SizeIs;
    forall i | 0 <= i < |m.chunks| ensures ValidChunk(m.chunks[i]) {
      ExtIsValid(m.chunks[i].ext);
    }
    ExtIsValid(m.lastExt);
    forall i | 0 <= i < |m.trailers| ensures ValidTrailer(m.trailers[i]) {
      FieldLineIsValid(m.trailers[i]);
    }
  }

  lemma PlainParts(line: Bytes) returns (size: Bytes, ext: Bytes)
    requires PlainSizeLine(line)
    ensures PlainDigits(size) && ChunkExt(ext) && line == SizeLine(size, ext)
    ensures ChunkSize(line).Some? && ChunkSize(line).value >= 0 && Numeral(size, ChunkSize(line).value)
  {
    var body := line[..|line| - 2];
    size, ext := body[..HexRun(body)], body[HexRun(body)..];
    assert body == size + ext && line == body + CRLF;
    ExtIsValid(ext);
    ChunkSizeOfLine(size, ext);
  }

  lemma {:induction false} RunOver(size: Bytes, rest: Bytes)
    requires forall i :: 0 <= i < |size| ==> HexValue(size[i]).Some?
    requires rest == [] || HexValue(rest[0]) == None
    ensures HexRun(size + rest) == |size|
    decreases |size|
  {
    if size == [] {
      assert size + rest == rest;
    } else {
      assert (size + rest)[1..] == size[1..] + rest;
      RunOver(size[1..], rest);
    }
  }

  lemma SizeLineIsPlain(size: Bytes, ext: Bytes)
    requires PlainDigits(size) && ValidExt(ext)
    ensures PlainSizeLine(SizeLine(size, ext)) <==> ChunkExt(ext)
  {
    hide ChunkExt;
    var line := SizeLine(size, ext);
    var body := size + ext;
    assert line[..|line| - 2] == body && line[|line| - 2..] == CRLF;
    assert ext == [] || HexValue(ext[0]) == None by {
      if ext != [] && ext[0] != SEMICOLON {
        assert |BeforeSemicolon(ext)| > 0;
      }
    }
    RunOver(size, ext);
    assert body[|size|..] == ext;
  }

  lemma {:induction false} TrailersDecode(s: Bytes, i: nat, h: nat, max: nat) returns (ts: seq<Bytes>)
    requires i <= |s| && Trailers(s, i, h, max).Some? && StrictTrailers(s, i)
    ensures forall k :: 0 <= k < |ts| ==> FieldLine(ts[k])
    ensures s[i..Trailers(s, i, h, max).value] == EncodeTrailers(ts)
    decreases |s| - i
  {
    hide LineEnd, FieldLine;
    var e := LineEnd(s, i);
    var line := s[i..e];
    if line == CRLF {
      ts := [];
    } else {
      var more := TrailersDecode(s, e, h + (e - i), max);
      ts := [line] + more;
      assert ts[1..] == more;
      var n := Trailers(s, i, h, max).value;
      assert s[i..n] == line + s[e..n];
    }
  }

  lemma Slices(s: Bytes, i: nat, a: nat, b: nat, c: nat, n: nat)
    requires i <= a <= b <= c <= n <= |s|
    ensures s[i..n] == s[i..a] + s[a..b] + s[b..c] + s[c..n]
  {
    assert s[i..b] == s[i..a] + s[a..b];
    assert s[i..c] == s[i..b] + s[b..c];
    assert s[i..n] == s[i..c] + s[c..n];
  }

  lemma NoMoreChunks(m: Message)
    requires m.chunks == []
    ensures Encode(m) == LastLine(m) + EncodeTrailers(m.trailers)
    ensures RfcMessage(m) <==> SizeIs(m.lastSize, 0) && ChunkExt(m.lastExt) && forall i :: 0 <= i < |m.trailers| ==> FieldLine(m.trailers[i])
  {
    hide SizeIs, ChunkExt, FieldLine, LastLine, EncodeTrailers;
  }

  lemma OneMoreChunk(c: Chunk, rest: Message)
    requires RfcMessage(rest) && RfcChunk(c)
    ensures var m := rest.(chunks := [c] + rest.chunks);
            RfcMessage(m) && Encode(m) == ChunkLine(c) + c.data + CRLF + Encode(rest)
  {
    hide RfcChunk, ChunkExt, FieldLine, SizeIs, ChunkLine, EncodeTrailers;
    var m := rest.(chunks := [c] + rest.chunks);
    assert m.chunks[1..] == rest.chunks;
    assert forall k :: 0 < k < |m.chunks| ==> m.chunks[k] == rest.chunks[k - 1];
  }

  lemma {:induction false} FrameDecode(s: Bytes, i: nat, h: nat, max: nat) returns (m: Message)
    requires i <= |s| && Frame(s, i, h, max).Some? && Strict(s, i)
    ensures RfcMessage(m) && s[i..Frame(s, i, h, max).value] == Encode(m)
    decreases |s| - i
  {
    hide LineEnd, ChunkSize, Trailers, StrictTrailers, PlainSizeLine, SizeLine, EncodeTrailers, Digits, ChunkExt, PlainDigits, FieldLine,
         Encode, RfcMessage;
    var e := LineEnd(s, i);
    var line := s[i..e];
    var n := Frame(s, i, h, max).value;
    var digits, ext := PlainParts(line);
    var size := ChunkSize(line).value;
    if size == 0 {
      var ts := TrailersDecode(s, e, h + (e - i), max);
      m := Message([], digits, ext, ts);
      NoMoreChunks(m);
      assert s[i..n] == line + s[e..n];
    } else {
      var data := s[e..e + size];
      var next := e + size + 2;
      var rest := FrameDecode(s, next, h + (e - i), max);
      m := rest.(chunks := [Chunk(digits, ext, data)] + rest.chunks);
      assert s[e + size..next] == CRLF;
      Slices(s, i, e, e + size, next, n);
      OneMoreChunk(Chunk(digits, ext, data), rest);
    }
  }

  lemma Middle(a: Bytes, b: Bytes, c: Bytes)
    ensures (a + b + c)[|a|..|a| + |b|] == b
  {
  }

  lemma {:induction false} TrailersStrict(p: Bytes, ts: seq<Bytes>, rest: Bytes)
    requires forall k :: 0 <= k < |ts| ==> ValidTrailer(ts[k])
    ensures StrictTrailers(p + EncodeTrailers(ts) + rest, |p|) <==> forall k :: 0 <= k < |ts| ==> FieldLine(ts[k])
    decreases |ts|
  {
    hide LineEnd, FieldLine;
    var s := p + EncodeTrailers(ts) + rest;
    if ts == [] {
      LineEndAt(p, CRLF, rest, 0);
      assert s[|p|..|p| + 2] == CRLF;
    } else {
      var t, more := ts[0], EncodeTrailers(ts[1..]);
      assert s == p + t + (more + rest);
      LineEndAt(p, t, more + rest, 0);
      assert s[|p|..|p| + |t|] == t;
      assert s == (p + t) + more + rest;
      TrailersStrict(p + t, ts[1..], rest);
      assert ts == [t] + ts[1..];
    }
  }

  /** One chunk of a strict body whose size line is known. */
  lemma StrictStep(p: Bytes, line: Bytes, tail: Bytes, size: nat)
    requires |line| >= 3 && line[|line| - 1] == LF && forall i :: 0 <= i < |line| - 1 ==> line[i] != LF
    requires ChunkSize(line) == Some(size)
    ensures var s, e := p + line + tail, |p| + |line|;
            Strict(s, |p|) <==>
              && PlainSizeLine(line)
              && if size == 0 then StrictTrailers(s, e)
                 else e + size + 2 <= |s| && s[e + size..e + size + 2] == CRLF && Strict(s, e + size + 2)
  {
    hide LineEnd, ChunkSize, PlainSizeLine, StrictTrailers;
    LineEndAt(p, line, tail, 0);
    assert (p + line + tail)[|p|..|p| + |line|] == line;
  }

  lemma FirstChunk(m: Message)
    requires m.chunks != []
    ensures RfcMessage(m) <==> RfcChunk(m.chunks[0]) && RfcMessage(m.(chunks := m.chunks[1..]))
  {
    hide RfcChunk, ChunkExt, FieldLine, SizeIs;
    assert m.chunks == [m.chunks[0]] + m.chunks[1..];
  }

  lemma LastStrict(p: Bytes, m: Message, rest: Bytes)
    requires ValidMessage(m) && m.chunks == []
    ensures Strict(p + Encode(m) + rest, |p|) <==> RfcMessage(m)
  {
    hide LineEnd, ChunkSize, SizeLine, PlainSizeLine, StrictTrailers, ValidExt, ChunkExt, Strict, PlainDigits, SizeIs, FieldLine, ValidTrailer;
    var s := p + Encode(m) + rest;
    var line, more := LastLine(m), EncodeTrailers(m.trailers);
    LineOfSize(m.lastSize, m.lastExt, 0);
    SizeLineIsPlain(m.lastSize, m.lastExt);
    assert s == p + line + (more + rest);
    StrictStep(p, line, more + rest, 0);
    assert s == (p + line) + more + rest;
    TrailersStrict(p + line, m.trailers, rest);
  }

  lemma NextStrict(p: Bytes, c: Chunk, more: Bytes)
    requires ValidChunk(c)
    ensures var s := p + ChunkLine(c) + c.data + CRLF + more;
            Strict(s, |p|) <==> RfcChunk(c) && Strict(s, |p| + |ChunkLine(c)| + |c.data| + 2)
  {
    hide LineEnd, ChunkSize, SizeLine, PlainSizeLine, ValidExt, ChunkExt, Strict, PlainDigits, SizeIs;
    var s := p + ChunkLine(c) + c.data + CRLF + more;
    LineOfSize(c.size, c.ext, |c.data|);
    SizeLineIsPlain(c.size, c.ext);
    Middle(p + ChunkLine(c) + c.data, CRLF, more);
    assert s == p + ChunkLine(c) + (c.data + CRLF + more);
    StrictStep(p, ChunkLine(c), c.data + CRLF + more, |c.data|);
  }

  lemma {:induction false} MessageStrict(p: Bytes, m: Message, rest: Bytes)
    requires ValidMessage(m)
    ensures Strict(p + Encode(m) + rest, |p|) <==> RfcMessage(m)
    decreases |m.chunks|
  {
    hide ChunkLine, Strict, RfcMessage, RfcChunk, ValidChunk, ValidExt, SizeIs, ValidTrailer;
    if m.chunks == [] {
      LastStrict(p, m, rest);
    } else {
      var c, m' := m.chunks[0], m.(chunks := m.chunks[1..]);
      var s := p + Encode(m) + rest;
      FirstChunk(m);
      MessageStrict(p + ChunkLine(c) + c.data + CRLF, m', rest);
      assert s == (p + ChunkLine(c) + c.data + CRLF) + Encode(m') + rest;
      assert s == p + ChunkLine(c) + c.data + CRLF + (Encode(m') + rest);
      NextStrict(p, c, Encode(m') + rest);
    }
  }

  /** MAIN: what the proxy delimited is a chunked body of section 7.1 of RFC 9112 if and only if
      every size line is plain digits and a chunk extension, the two unread bytes after every
      chunk are CRLF, and every trailer is a field line. */
  lemma AcceptedIsMessage(s: Bytes, max: nat)
    requires Frame(s, 0, 0, max).Some?
    ensures Strict(s, 0) <==> exists m :: RfcMessage(m) && s[..Frame(s, 0, 0, max).value] == Encode(m)
  {
    hide Frame, Strict, RfcMessage, Encode;
    var n := Frame(s, 0, 0, max).value;
    if Strict(s, 0) {
      var m := FrameDecode(s, 0, 0, max);
      assert s[..n] == s[0..n];
    }
    if m :| RfcMessage(m) && s[..n] == Encode(m) {
      RfcMessageIsValid(m);
      MessageStrict([], m, s[n..]);
      assert [] + s[..n] + s[n..] == s;
    }
  }

  /** Every body of the RFC is one that the proxy delimits exactly when it fits; of the wider
      bodies that it delimits too, those are strict that are of the RFC. */
  lemma RfcIsFramed(m: Message, rest: Bytes, max: nat)
    ensures RfcMessage(m) ==>
              Frame(Encode(m) + rest, 0, 0, max) == if HeaderBytes(m) <= max then Some(|Encode(m)|) else None
    ensures ValidMessage(m) ==> (Strict(Encode(m) + rest, 0) <==> RfcMessage(m))
  {
    hide Frame, Encode, HeaderBytes, RfcMessage, ValidMessage, Strict;
    if RfcMessage(m) {
      RfcMessageIsValid(m);
      MessageIsFramed(m, rest, max);
    }
    if ValidMessage(m) {
      assert [] + Encode(m) + rest == Encode(m) + rest;
      MessageStrict([], m, rest);
    }
  }

  // ----- bodies the RFC does not allow

  const ZERO: Bytes := ['0' as int]
  const BLANK_SIZE: Message := Message([], ZERO, [0x20], [])
  const CONTROL_EXT: Message := Message([], ZERO, [SEMICOLON, 0], [])
  const NO_FIELD: Message := Message([], ZERO, [], [Ascii("x") + CRLF])

  lemma BlankIsNoExt()
    ensures !ChunkExt([0x20])
  {
    hide PrintParts, ValidParts;
    NothingPrinted();
    forall ps: seq<ExtPart> | ValidParts(ps) ensures PrintParts(ps) != [0x20] {
      if ps != [] {
        var tail := StartsWithPart(ps);
        assert PrintParts(ps)[|ps[0].pre|] == SEMICOLON;
      }
    }
  }

  lemma ControlIsNoExt()
    ensures !ChunkExt([SEMICOLON, 0])
  {
    hide PrintParts, ValidParts;
    NothingPrinted();
    forall ps: seq<ExtPart> | ValidParts(ps) ensures PrintParts(ps) != [SEMICOLON, 0] {
      if ps != [] {
        ControlIsNoPart(ps);
      }
    }
  }

  lemma ControlIsNoPart(ps: seq<ExtPart>)
    requires ps != [] && ValidParts(ps)
    ensures PrintParts(ps) != [SEMICOLON, 0]
  {
    hide PrintValue;
    var p, s := ps[0], PrintParts(ps);
    var tail := PrintValue(p.value) + PrintParts(ps[1..]);
    assert s == p.pre + [SEMICOLON] + p.mid + p.name + tail;
    H.TokenIsPlain(p.name);
    assert H.TokenChar(p.name[0]);
    if p.pre != [] {
      assert s[0] == p.pre[0];
    } else if p.mid != [] {
      assert s[1] == p.mid[0];
    } else {
      assert s[1] == p.name[0];
    }
  }

  lemma NoFieldLine()
    ensures !FieldLine(Ascii("x") + CRLF) && ValidTrailer(Ascii("x") + CRLF)
  {
    var t := Ascii("x") + CRLF;
    assert t[..|t| - 2] == ['x' as int];
    assert ['x' as int][1..] == [];
  }

  /** The proxy delimits bodies of all three kinds that the RFC does not allow: a blank after a
      size without an extension, a control byte for one, a trailer that is no field line. */
  lemma AcceptsMoreBodies(m: Message, max: nat)
    requires (m == BLANK_SIZE || m == CONTROL_EXT || m == NO_FIELD) && max >= 8
    ensures Frame(Encode(m), 0, 0, max) == Some(|Encode(m)|)
    ensures !exists n :: RfcMessage(n) && Encode(m) == Encode(n)
  {
    hide Frame, Strict, Encode, ChunkExt, FieldLine;
    BlankIsNoExt();
    ControlIsNoExt();
    NoFieldLine();
    ThreeAreValid(m);
    assert Encode(m) + [] == Encode(m);
    MessageIsFramed(m, [], max);
    RfcIsFramed(m, [], max);
    assert Encode(m)[..|Encode(m)|] == Encode(m);
    AcceptedIsMessage(Encode(m), max);
  }

  lemma ThreeAreValid(m: Message)
    requires m == BLANK_SIZE || m == CONTROL_EXT || m == NO_FIELD
    ensures ValidMessage(m) && HeaderBytes(m) <= 8
  {
    assert Digits(ZERO, 0) == Some(0);
    assert BeforeSemicolon([0x20]) == [0x20] && [0x20][1..] == [];
    assert EncodeTrailers([]) == CRLF;
    assert [Ascii("x") + CRLF][1..] == [];
    NoFieldLine();
  }

  /** MAIN: a message with anything after it, forwarded under budgets no one else uses: it
      goes through exactly, leaving exactly what follows, if and only if its size lines and
      trailers fit and both budgets allow its length. */
  method ForwardMessage(m: Message, rest: Bytes, limit: nat, globalLimit: nat, maxHeader: nat)
    returns (ok: bool, output: Bytes, input: Bytes, used: nat)
    requires ValidMessage(m)
    ensures ok <==> HeaderBytes(m) <= maxHeader && |Encode(m)| <= limit && |Encode(m)| <= globalLimit
    ensures ok ==> output == Encode(m) && input == rest && used == |Encode(m)|
    ensures !ok ==> output <= Encode(m) + rest && used == |output|
  {
    var c := new Connection(Encode(m) + rest, limit, globalLimit, maxHeader, 0);
    MessageIsFramed(m, rest, maxHeader);
    ghost var s := c.input;
    ok := c.CopyChunkedBody();
    if ok {
      assert s[..|Encode(m)|] == Encode(m) && s[|Encode(m)|..] == rest;
    } else {
      ghost var k: nat :| c.WroteOnly(s, [], 0, k);
      assert c.output == s[..k];
    }
    output, input, used := c.output, c.input, c.used;
  }
}
