/** The scanner behind `json.JSONDecoder.raw_decode`: one JSON value starting at a given
    position of a buffer (section 2 to 7 of RFC 8259, plus the three constants Python adds). */
module JsonScanner {
  import opened Text

  datatype JValue =
    | JNull
    | JBool(b: bool)
    | JInt(n: int)
    | JFloat(literal: Str)      // a number with a fraction or an exponent
    | JConstant(name: Str)      // NaN, Infinity, -Infinity
    | JString(s: Str)
    | JArray(items: seq<JValue>)
    | JObject(members: seq<(Str, JValue)>)

  /** Fail is JSONDecodeError; Got carries the value and the position after it. */
  datatype Scan = Fail | Got(v: JValue, end: nat)

  const QUOTE := '"' as int
  const BACKSLASH := '\\' as int
  const MINUS := '-' as int
  const DOT := '.' as int
  const COMMA := ',' as int
  const COLON := ':' as int
  const OPEN_BRACE := '{' as int
  const CLOSE_BRACE := '}' as int
  const OPEN_BRACKET := '[' as int
  const CLOSE_BRACKET := ']' as int

  predicate At(s: Str, i: nat, c: int) {
    i < |s| && s[i] == c
  }

  function SkipJson(s: Str, i: nat): (r: nat)
    requires i <= |s|
    ensures i <= r <= |s|
    ensures r < |s| ==> !IsJsonSpace(s[r])
    decreases |s| - i
  {
    if i < |s| && IsJsonSpace(s[i]) then SkipJson(s, i + 1) else i
  }

  // ----- numbers

  function DigitsEnd(s: Str, i: nat): (r: nat)
    requires i <= |s|
    ensures i <= r <= |s|
    ensures forall j :: i <= j < r ==> IsDigit(s[j])
    ensures r < |s| ==> !IsDigit(s[r])
    decreases |s| - i
  {
    if i < |s| && IsDigit(s[i]) then DigitsEnd(s, i + 1) else i
  }

  /** End of `-?(0|[1-9][0-9]*)` at i. */
  function IntEnd(s: Str, i: nat): (r: Option<nat>)
    requires i <= |s|
    ensures r.Some? ==> i < r.value <= |s|
  {
    var j := if At(s, i, MINUS) then i + 1 else i;
    if j >= |s| || !IsDigit(s[j]) then None
    else if s[j] == '0' as int then Some(j + 1)
    else Some(DigitsEnd(s, j + 1))
  }

  /** End of an optional fraction at j: a dot needs at least one digit after it. */
  function FractionEnd(s: Str, j: nat): (r: nat)
    requires j <= |s|
    ensures j <= r <= |s|
  {
    if At(s, j, DOT) && j + 1 < |s| && IsDigit(s[j + 1]) then DigitsEnd(s, j + 1) else j
  }

  predicate IsExponentMark(c: int) {
    c == 'e' as int || c == 'E' as int
  }

  /** End of an optional exponent at j. */
  function ExponentEnd(s: Str, j: nat): (r: nat)
    requires j <= |s|
    ensures j <= r <= |s|
  {
    if j < |s| && IsExponentMark(s[j]) then
      var k := if At(s, j + 1, '+' as int) || At(s, j + 1, MINUS) then j + 2 else j + 1;
      if k < |s| && IsDigit(s[k]) then DigitsEnd(s, k) else j
    else j
  }

  function Natural(digits: Str): int {
    if digits == [] then 0 else 10 * Natural(digits[..|digits| - 1]) + (digits[|digits| - 1] - '0' as int)
  }

  function Integer(literal: Str): int {
    if At(literal, 0, MINUS) then -Natural(literal[1..]) else Natural(literal)
  }

  function ScanNumber(s: Str, i: nat): (r: Scan)
    requires i <= |s|
    ensures r.Got? ==> (r.v.JInt? || r.v.JFloat?) && i < r.end <= |s|
  {
    match IntEnd(s, i)
    case None => Fail
    case Some(j) =>
      var e := ExponentEnd(s, FractionEnd(s, j));
      if e == j then Got(JInt(Integer(s[i..j])), j) else Got(JFloat(s[i..e]), e)
  }

  // ----- strings

  function HexDigit(c: int): Option<int> {
    if IsDigit(c) then Some(c - '0' as int)
    else if 'a' as int <= c <= 'f' as int then Some(c - 'a' as int + 10)
    else if 'A' as int <= c <= 'F' as int then Some(c - 'A' as int + 10)
    else None
  }

  /** The four hexadecimal digits of a \u escape. */
  function Hex4(s: Str, i: nat): Option<int> {
    if i + 4 > |s| then None
    else
      match (HexDigit(s[i]), HexDigit(s[i + 1]), HexDigit(s[i + 2]), HexDigit(s[i + 3]))
      case (Some(a), Some(b), Some(c), Some(d)) => Some(((a * 16 + b) * 16 + c) * 16 + d)
      case _ => None
  }

  function SimpleEscape(c: int): Option<int> {
    if c == QUOTE || c == BACKSLASH || c == '/' as int then Some(c)
    else if c == 'b' as int then Some(0x08)
    else if c == 'f' as int then Some(0x0C)
    else if c == 'n' as int then Some(0x0A)
    else if c == 'r' as int then Some(0x0D)
    else if c == 't' as int then Some(0x09)
    else None
  }

  datatype Unit = BadUnit | Unit(c: int, next: nat)

  /** One character or escape of a string body. */
  function ScanUnit(s: Str, i: nat): (r: Unit)
    requires i < |s|
    ensures r.Unit? ==> i < r.next <= |s|
  {
    if s[i] != BACKSLASH then
      if 0 <= s[i] < 0x20 then BadUnit else Unit(s[i], i + 1)
    else if i + 1 >= |s| then BadUnit
    else if s[i + 1] == 'u' as int then ScanHexEscape(s, i)
    else
      match SimpleEscape(s[i + 1])
      case None => BadUnit
      case Some(c) => Unit(c, i + 2)
  }

  /** The escape \uXXXX at i; a high surrogate is joined with the low surrogate escaped after it. */
  function ScanHexEscape(s: Str, i: nat): (r: Unit)
    ensures r.Unit? ==> i < r.next <= |s|
  {
    match Hex4(s, i + 2)
    case None => BadUnit
    case Some(hi) =>
      if 0xD800 <= hi <= 0xDBFF && At(s, i + 6, BACKSLASH) && At(s, i + 7, 'u' as int) then
        match Hex4(s, i + 8)
        case None => BadUnit
        case Some(lo) =>
          if 0xDC00 <= lo <= 0xDFFF
          then Unit(0x10000 + (hi - 0xD800) * 0x400 + (lo - 0xDC00), i + 12)
          else Unit(hi, i + 6)
      else Unit(hi, i + 6)
  }

  datatype Body = BadBody | Body(text: Str, end: nat)

  /** The rest of a string whose opening quote is before i. */
  function ScanString(s: Str, i: nat): (r: Body)
    ensures r.Body? ==> i < r.end <= |s|
    decreases |s| - i
  {
    if i >= |s| then BadBody
    else if s[i] == QUOTE then Body([], i + 1)
    else
      match ScanUnit(s, i)
      case BadUnit => BadBody
      case Unit(c, next) =>
        match ScanString(s, next)
        case BadBody => BadBody
        case Body(text, end) => Body([c] + text, end)
  }

  // ----- values

  function ScanValue(s: Str, i: nat): (r: Scan)
    ensures r.Got? ==> i < r.end <= |s|
    decreases |s| - i, 3
  {
    if i >= |s| then Fail
    else if s[i] == QUOTE then
      match ScanString(s, i + 1)
      case BadBody => Fail
      case Body(text, end) => Got(JString(text), end)
    else if s[i] == OPEN_BRACE then
      var j := SkipJson(s, i + 1);
      if At(s, j, CLOSE_BRACE) then Got(JObject([]), j + 1)
      else
        match ScanMembers(s, j)
        case NoMembers => Fail
        case Members(ms, end) => Got(JObject(ms), end)
    else if s[i] == OPEN_BRACKET then
      var j := SkipJson(s, i + 1);
      if At(s, j, CLOSE_BRACKET) then Got(JArray([]), j + 1)
      else
        match ScanElements(s, j)
        case NoElements => Fail
        case Elements(vs, end) => Got(JArray(vs), end)
    else ScanAtom(s, i)
  }

  function ScanAtom(s: Str, i: nat): (r: Scan)
    requires i < |s|
    ensures r.Got? ==> i < r.end <= |s|
    ensures r.Got? ==> !r.v.JString? && !r.v.JArray? && !r.v.JObject?
  {
    if s[i] == 'n' as int then ScanWord(s, i, Ascii("null"), JNull)
    else if s[i] == 't' as int then ScanWord(s, i, Ascii("true"), JBool(true))
    else if s[i] == 'f' as int then ScanWord(s, i, Ascii("false"), JBool(false))
    else if s[i] == 'N' as int then ScanWord(s, i, Ascii("NaN"), JConstant(Ascii("NaN")))
    else if s[i] == 'I' as int then ScanWord(s, i, Ascii("Infinity"), JConstant(Ascii("Infinity")))
    else if s[i] == MINUS && At(s, i + 1, 'I' as int) then ScanWord(s, i, Ascii("-Infinity"), JConstant(Ascii("-Infinity")))
    else ScanNumber(s, i)
  }

  function ScanWord(s: Str, i: nat, word: Str, v: JValue): (r: Scan)
    ensures r.Got? ==> r.v == v && r.end == i + |word| <= |s|
  {
    if i + |word| <= |s| && s[i..i + |word|] == word then Got(v, i + |word|) else Fail
  }

  datatype Elements = NoElements | Elements(vs: seq<JValue>, end: nat)

  /** The elements of a non-empty array, from the start of one of them to after the bracket. */
  function ScanElements(s: Str, i: nat): (r: Elements)
    ensures r.Elements? ==> i < r.end <= |s|
    decreases |s| - i, 4
  {
    match ScanValue(s, i)
    case Fail => NoElements
    case Got(v, e) =>
      var j := SkipJson(s, e);
      if At(s, j, CLOSE_BRACKET) then Elements([v], j + 1)
      else if !At(s, j, COMMA) then NoElements
      else
        AddElement(v, ScanElements(s, SkipJson(s, j + 1)))
  }

  function AddElement(v: JValue, rest: Elements): Elements {
    match rest
    case NoElements => NoElements
    case Elements(vs, end) => Elements([v] + vs, end)
  }

  datatype Member = NoMember | Member(key: Str, v: JValue, end: nat)

  /** The `"key":` of a member and the position its value starts at. */
  function ScanKey(s: Str, i: nat): (r: Body)
    ensures r.Body? ==> i < r.end <= |s|
  {
    if !At(s, i, QUOTE) then BadBody
    else
      match ScanString(s, i + 1)
      case BadBody => BadBody
      case Body(key, e) =>
        var c := SkipJson(s, e);
        if At(s, c, COLON) then Body(key, SkipJson(s, c + 1)) else BadBody
  }

  function ScanMember(s: Str, i: nat): (r: Member)
    ensures r.Member? ==> i < r.end <= |s|
    decreases |s| - i, 4
  {
    match ScanKey(s, i)
    case BadBody => NoMember
    case Body(key, start) =>
      match ScanValue(s, start)
      case Fail => NoMember
      case Got(v, e) => Member(key, v, e)
  }

  datatype Members = NoMembers | Members(ms: seq<(Str, JValue)>, end: nat)

  /** The members of a non-empty object, from the quote of a key to after the brace. */
  function ScanMembers(s: Str, i: nat): (r: Members)
    ensures r.Members? ==> i < r.end <= |s|
    decreases |s| - i, 5
  {
    match ScanMember(s, i)
    case NoMember => NoMembers
    case Member(key, v, e) =>
      var j := SkipJson(s, e);
      if At(s, j, CLOSE_BRACE) then Members([(key, v)], j + 1)
      else if !At(s, j, COMMA) then NoMembers
      else
        AddMember(key, v, ScanMembers(s, SkipJson(s, j + 1)))
  }

  function AddMember(key: Str, v: JValue, rest: Members): Members {
    match rest
    case NoMembers => NoMembers
    case Members(ms, end) => Members([(key, v)] + ms, end)
  }

  /** `json.loads` of a text whose root must be an object, before duplicate keys collapse. */
  function LoadsObject(s: Str): Option<seq<(Str, JValue)>> {
    match ScanValue(s, SkipJson(s, 0))
    case Fail => None
    case Got(v, e) => if v.JObject? && SkipJson(s, e) == |s| then Some(v.members) else None
  }

  // ----- a longer buffer does not change what was scanned

  predicate IsNumber(v: JValue) {
    v.JInt? || v.JFloat?
  }

  /** The characters that could turn a scanned number into a longer one. */
  predicate CanExtend(c: int) {
    c == DOT || IsExponentMark(c)
  }

  lemma SkipJsonPrefix(s: Str, t: Str, i: nat)
    requires s <= t && i <= |s|
    ensures SkipJson(s, i) < |s| ==> SkipJson(t, i) == SkipJson(s, i)
    decreases |s| - i
  {
  }

  lemma DigitsEndPrefix(s: Str, t: Str, i: nat)
    requires s <= t && i <= |s|
    ensures DigitsEnd(s, i) < |s| ==> DigitsEnd(t, i) == DigitsEnd(s, i)
    decreases |s| - i
  {
  }

  lemma IntEndPrefix(s: Str, t: Str, i: nat)
    requires s <= t && i <= |s|
    requires IntEnd(s, i).Some? && IntEnd(s, i).value < |s|
    ensures IntEnd(t, i) == IntEnd(s, i)
  {
    var j := if At(s, i, MINUS) then i + 1 else i;
    DigitsEndPrefix(s, t, j + 1);
  }

  lemma FractionEndPrefix(s: Str, t: Str, j: nat)
    requires s <= t && j <= |s|
    requires FractionEnd(s, j) < |s| && s[FractionEnd(s, j)] != DOT
    ensures FractionEnd(t, j) == FractionEnd(s, j)
  {
    if At(s, j, DOT) && j + 1 < |s| && IsDigit(s[j + 1]) {
      DigitsEndPrefix(s, t, j + 1);
    }
  }

  lemma ExponentEndPrefix(s: Str, t: Str, j: nat)
    requires s <= t && j <= |s|
    requires ExponentEnd(s, j) < |s| && !IsExponentMark(s[ExponentEnd(s, j)])
    ensures ExponentEnd(t, j) == ExponentEnd(s, j)
  {
    if j < |s| && IsExponentMark(s[j]) {
      var k := if At(s, j + 1, '+' as int) || At(s, j + 1, MINUS) then j + 2 else j + 1;
      DigitsEndPrefix(s, t, k);
    }
  }

  /** Scanning `s` up to a character inside it agrees with scanning any extension of it,
      except that an integer may turn out to be the start of a fraction or an exponent. */
  lemma NumberPrefix(s: Str, t: Str, i: nat)
    requires s <= t && i <= |s| && ScanNumber(s, i).Got?
    requires ScanNumber(s, i).end < |s|
    ensures ScanNumber(t, i).Got?
    ensures ScanNumber(t, i) == ScanNumber(s, i) || ScanNumber(t, i).v.JFloat?
    ensures !CanExtend(s[ScanNumber(s, i).end]) ==> ScanNumber(t, i) == ScanNumber(s, i)
  {
    IntEndPrefix(s, t, i);
    var j := IntEnd(s, i).value;
    assert s[i..j] == t[i..j];
    var f := FractionEnd(s, j);
    var e := ExponentEnd(s, f);
    if CanExtend(s[e]) {
      if e > j {
        LongerNumber(s, t, j);
      }
    } else {
      if e == f {
        FractionEndPrefix(s, t, j);
      } else {
        assert IsExponentMark(s[f]) && s[f] != DOT;
        FractionEndPrefix(s, t, j);
      }
      ExponentEndPrefix(s, t, f);
      assert s[i..e] == t[i..e];
    }
  }

  /** A fraction or exponent that was seen stays one. */
  lemma LongerNumber(s: Str, t: Str, j: nat)
    requires s <= t && j <= |s|
    requires ExponentEnd(s, FractionEnd(s, j)) > j
    ensures ExponentEnd(t, FractionEnd(t, j)) > j
  {
  }

  /** An integer shows its length as soon as the character after it is visible and cannot
      extend it; the other values show it at once. */
  predicate Settled(s: Str, r: Scan) {
    r.Got? && (IsNumber(r.v) ==> r.end < |s| && !CanExtend(s[r.end]))
  }

  lemma Hex4Prefix(s: Str, t: Str, i: nat)
    requires s <= t && i + 4 <= |s|
    ensures Hex4(t, i) == Hex4(s, i)
  {
  }

  /** A string unit that the rest of the string follows is the same in a longer buffer. */
  lemma UnitPrefix(s: Str, t: Str, i: nat)
    requires s <= t && i < |s|
    requires ScanUnit(s, i).Unit?
    requires ScanString(s, ScanUnit(s, i).next).Body?
    ensures ScanUnit(t, i) == ScanUnit(s, i)
  {
    if s[i] == BACKSLASH && s[i + 1] == 'u' as int {
      HexEscapePrefix(s, t, i);
    }
  }

  lemma HexEscapePrefix(s: Str, t: Str, i: nat)
    requires s <= t
    requires ScanHexEscape(s, i).Unit?
    requires ScanString(s, ScanHexEscape(s, i).next).Body?
    ensures ScanHexEscape(t, i) == ScanHexEscape(s, i)
  {
    var next := ScanHexEscape(s, i).next;
    Hex4Prefix(s, t, i + 2);
    if next == i + 6 && At(s, i + 6, BACKSLASH) {
      // the string goes on, so the escape that starts here is complete in s
      assert ScanUnit(s, i + 6).Unit?;
      if s[i + 7] == 'u' as int {
        Hex4Prefix(s, t, i + 8);
      }
    } else if next == i + 12 {
      Hex4Prefix(s, t, i + 8);
    }
  }

  lemma {:induction false} StringPrefix(s: Str, t: Str, i: nat)
    requires s <= t && ScanString(s, i).Body?
    ensures ScanString(t, i) == ScanString(s, i)
    decreases |s| - i
  {
    if s[i] != QUOTE {
      UnitPrefix(s, t, i);
      StringPrefix(s, t, ScanUnit(s, i).next);
    }
  }

  lemma AtomPrefix(s: Str, t: Str, i: nat)
    requires s <= t && i < |s|
    requires ScanAtom(s, i).Got?
    requires IsNumber(ScanAtom(s, i).v) ==> ScanAtom(s, i).end < |s|
    ensures ScanAtom(t, i).Got?
    ensures ScanAtom(t, i) == ScanAtom(s, i) || (IsNumber(ScanAtom(s, i).v) && ScanAtom(t, i).v.JFloat?)
    ensures Settled(s, ScanAtom(s, i)) ==> ScanAtom(t, i) == ScanAtom(s, i)
  {
    if IsNumber(ScanAtom(s, i).v) {
      NumberAtom(s, t, i);
      NumberPrefix(s, t, i);
    } else {
      WordPrefix(s, t, i);
    }
  }

  lemma NumberAtom(s: Str, t: Str, i: nat)
    requires s <= t && i < |s|
    requires ScanAtom(s, i).Got? && IsNumber(ScanAtom(s, i).v)
    ensures ScanAtom(s, i) == ScanNumber(s, i)
    ensures ScanAtom(t, i) == ScanNumber(t, i)
  {
    assert s[i] == t[i];
    assert IsDigit(s[i]) || (s[i] == MINUS && !At(s, i + 1, 'I' as int));
    assert s[i] == MINUS ==> s[i + 1] == t[i + 1];
  }

  lemma WordPrefix(s: Str, t: Str, i: nat)
    requires s <= t && i < |s|
    requires ScanAtom(s, i).Got? && !IsNumber(ScanAtom(s, i).v)
    ensures ScanAtom(t, i) == ScanAtom(s, i)
  {
    var e := ScanAtom(s, i).end;
    assert t[i..e] == s[i..e];
  }

  /** What a non-empty array or object needs from one of its values. */
  lemma {:induction false} ValuePrefix(s: Str, t: Str, i: nat)
    requires s <= t && ScanValue(s, i).Got?
    requires IsNumber(ScanValue(s, i).v) ==> ScanValue(s, i).end < |s|
    ensures ScanValue(t, i).Got?
    ensures ScanValue(t, i) == ScanValue(s, i) || (IsNumber(ScanValue(s, i).v) && ScanValue(t, i).v.JFloat?)
    ensures Settled(s, ScanValue(s, i)) ==> ScanValue(t, i) == ScanValue(s, i)
    decreases |s| - i, 3
  {
    if s[i] == QUOTE {
      StringPrefix(s, t, i + 1);
    } else if s[i] == OPEN_BRACE {
      var j := SkipJson(s, i + 1);
      SkipJsonPrefix(s, t, i + 1);
      if !At(s, j, CLOSE_BRACE) {
        MembersPrefix(s, t, j);
      }
    } else if s[i] == OPEN_BRACKET {
      var j := SkipJson(s, i + 1);
      SkipJsonPrefix(s, t, i + 1);
      if !At(s, j, CLOSE_BRACKET) {
        ElementsPrefix(s, t, j);
      }
    } else {
      AtomPrefix(s, t, i);
    }
  }

  /** Inside a container the value is followed by white space or a delimiter, which settles it. */
  lemma {:induction false} ValueFollowed(s: Str, t: Str, i: nat)
    requires s <= t && ScanValue(s, i).Got?
    requires SkipJson(s, ScanValue(s, i).end) < |s|
    requires !CanExtend(s[SkipJson(s, ScanValue(s, i).end)])
    ensures ScanValue(t, i) == ScanValue(s, i)
    ensures SkipJson(t, ScanValue(s, i).end) == SkipJson(s, ScanValue(s, i).end)
    decreases |s| - i, 4
  {
    assert Settled(s, ScanValue(s, i));
    ValuePrefix(s, t, i);
    SkipJsonPrefix(s, t, ScanValue(s, i).end);
  }

  lemma {:induction false} ElementsPrefix(s: Str, t: Str, i: nat)
    requires s <= t && ScanElements(s, i).Elements?
    ensures ScanElements(t, i) == ScanElements(s, i)
    decreases |s| - i, 5
  {
    hide ScanValue, ScanAtom, ScanKey, SkipJson;
    ValueFollowed(s, t, i);
    var Got(v, e) := ScanValue(s, i);
    var j := SkipJson(s, e);
    assert t[j] == s[j];
    if s[j] == CLOSE_BRACKET {
      assert ScanElements(t, i) == Elements([v], j + 1);
    } else {
      var k := SkipJson(s, j + 1);
      SkipJsonPrefix(s, t, j + 1);
      assert ScanElements(s, k).Elements?;
      assert SkipJson(t, j + 1) == k;
      ElementsPrefix(s, t, k);
    }
  }

  lemma KeyPrefix(s: Str, t: Str, i: nat)
    requires s <= t && ScanKey(s, i).Body? && ScanKey(s, i).end < |s|
    ensures ScanKey(t, i) == ScanKey(s, i)
  {
    var e := ScanString(s, i + 1).end;
    StringPrefix(s, t, i + 1);
    SkipJsonPrefix(s, t, e);
    SkipJsonPrefix(s, t, SkipJson(s, e) + 1);
  }

  lemma {:induction false} MemberFollowed(s: Str, t: Str, i: nat)
    requires s <= t && ScanMember(s, i).Member?
    requires SkipJson(s, ScanMember(s, i).end) < |s|
    requires !CanExtend(s[SkipJson(s, ScanMember(s, i).end)])
    ensures ScanMember(t, i) == ScanMember(s, i) && i < ScanMember(s, i).end <= |s|
    ensures SkipJson(t, ScanMember(s, i).end) == SkipJson(s, ScanMember(s, i).end)
    decreases |s| - i, 4
  {
    KeyPrefix(s, t, i);
    ValueFollowed(s, t, ScanKey(s, i).end);
  }

  lemma {:induction false} MembersPrefix(s: Str, t: Str, i: nat)
    requires s <= t && ScanMembers(s, i).Members?
    ensures ScanMembers(t, i) == ScanMembers(s, i)
    decreases |s| - i, 5
  {
    hide ScanValue, ScanAtom, ScanKey, SkipJson;
    MemberFollowed(s, t, i);
    var Member(key, v, e) := ScanMember(s, i);
    var j := SkipJson(s, e);
    assert t[j] == s[j];
    if s[j] == CLOSE_BRACE {
      assert ScanMembers(t, i) == Members([(key, v)], j + 1);
    } else {
      assert s[j] == COMMA;
      var k := SkipJson(s, j + 1);
      SkipJsonPrefix(s, t, j + 1);
      assert ScanMembers(s, k).Members?;
      assert SkipJson(t, j + 1) == k;
      MembersPrefix(s, t, k);
      assert ScanMembers(t, i) == AddMember(key, v, ScanMembers(t, k));
    }
  }

  // ----- a shorter buffer that still holds the value gives the same value

  lemma {:induction false} DigitsEndShrink(s: Str, t: Str, i: nat)
    requires s <= t && i <= |t| && DigitsEnd(t, i) <= |s|
    ensures DigitsEnd(s, i) == DigitsEnd(t, i)
    decreases |t| - i
  {
    if i < |t| && IsDigit(t[i]) {
      DigitsEndShrink(s, t, i + 1);
    }
  }

  lemma IntEndShrink(s: Str, t: Str, i: nat)
    requires s <= t && i <= |s|
    requires IntEnd(t, i).Some? && IntEnd(t, i).value <= |s|
    ensures IntEnd(s, i) == IntEnd(t, i)
  {
    var j := if At(t, i, MINUS) then i + 1 else i;
    if t[j] != '0' as int {
      DigitsEndShrink(s, t, j + 1);
    }
  }

  lemma FractionEndShrink(s: Str, t: Str, j: nat)
    requires s <= t && j <= |t| && FractionEnd(t, j) <= |s|
    ensures FractionEnd(s, j) == FractionEnd(t, j)
  {
    if FractionEnd(t, j) > j {
      DigitsEndShrink(s, t, j + 1);
    }
  }

  lemma ExponentEndShrink(s: Str, t: Str, j: nat)
    requires s <= t && j <= |t| && ExponentEnd(t, j) <= |s|
    ensures ExponentEnd(s, j) == ExponentEnd(t, j)
  {
    if ExponentEnd(t, j) > j {
      var k := if At(t, j + 1, '+' as int) || At(t, j + 1, MINUS) then j + 2 else j + 1;
      assert DigitsEnd(t, k) > k;
      DigitsEndShrink(s, t, k);
    }
  }

  lemma NumberShrink(s: Str, t: Str, i: nat)
    requires s <= t && i <= |t|
    requires ScanNumber(t, i).Got? && ScanNumber(t, i).end <= |s|
    ensures ScanNumber(s, i) == ScanNumber(t, i)
  {
    IntEndShrink(s, t, i);
    var j := IntEnd(t, i).value;
    var f := FractionEnd(t, j);
    FractionEndShrink(s, t, j);
    ExponentEndShrink(s, t, f);
    var e := ExponentEnd(t, f);
    assert s[i..j] == t[i..j] && s[i..e] == t[i..e];
  }

  lemma HexEscapeShrink(s: Str, t: Str, i: nat)
    requires s <= t
    requires ScanHexEscape(t, i).Unit?
    requires ScanString(t, ScanHexEscape(t, i).next).Body?
    requires ScanString(t, ScanHexEscape(t, i).next).end <= |s|
    ensures ScanHexEscape(s, i) == ScanHexEscape(t, i)
  {
    var next := ScanHexEscape(t, i).next;
    Hex4Prefix(s, t, i + 2);
    if next == i + 6 && At(t, i + 6, BACKSLASH) {
      assert ScanUnit(t, i + 6).Unit?;
      var after := ScanUnit(t, i + 6).next;
      assert ScanString(t, after).Body? && after < ScanString(t, after).end;
      if t[i + 7] == 'u' as int {
        assert i + 12 <= after;
        Hex4Prefix(s, t, i + 8);
      }
    } else if next == i + 12 {
      Hex4Prefix(s, t, i + 8);
    }
  }

  lemma {:induction false} StringShrink(s: Str, t: Str, i: nat)
    requires s <= t && ScanString(t, i).Body? && ScanString(t, i).end <= |s|
    ensures ScanString(s, i) == ScanString(t, i)
    decreases |t| - i
  {
    if t[i] != QUOTE {
      var next := ScanUnit(t, i).next;
      assert ScanString(t, next).Body?;
      assert next < ScanString(t, next).end;
      if t[i] == BACKSLASH && t[i + 1] == 'u' as int {
        HexEscapeShrink(s, t, i);
      }
      assert ScanUnit(s, i) == ScanUnit(t, i);
      StringShrink(s, t, next);
    }
  }

  lemma AtomShrink(s: Str, t: Str, i: nat)
    requires s <= t && i < |t|
    requires ScanAtom(t, i).Got? && ScanAtom(t, i).end <= |s|
    ensures ScanAtom(s, i) == ScanAtom(t, i)
  {
    if IsNumber(ScanAtom(t, i).v) {
      NumberAtom(t, t, i);
      NumberShrink(s, t, i);
      NotAWord(s, i);
    } else {
      var e := ScanAtom(t, i).end;
      assert t[i..e] == s[i..e];
    }
  }

  lemma NotAWord(s: Str, i: nat)
    requires i < |s| && ScanNumber(s, i).Got?
    ensures ScanAtom(s, i) == ScanNumber(s, i)
  {
    assert IsDigit(s[i]) || (s[i] == MINUS && IsDigit(s[i + 1]));
  }

  lemma {:induction false} SkipJsonShrink(s: Str, t: Str, i: nat)
    requires s <= t && i <= |t| && SkipJson(t, i) <= |s|
    ensures SkipJson(s, i) == SkipJson(t, i)
    decreases |t| - i
  {
    if i < |t| && IsJsonSpace(t[i]) {
      SkipJsonShrink(s, t, i + 1);
    }
  }

  lemma {:induction false} ValueShrink(s: Str, t: Str, i: nat)
    requires s <= t && ScanValue(t, i).Got? && ScanValue(t, i).end <= |s|
    ensures ScanValue(s, i) == ScanValue(t, i)
    decreases |t| - i, 3
  {
    if t[i] == QUOTE {
      StringShrink(s, t, i + 1);
    } else if t[i] == OPEN_BRACE {
      var j := SkipJson(t, i + 1);
      SkipJsonShrink(s, t, i + 1);
      if !At(t, j, CLOSE_BRACE) {
        MembersShrink(s, t, j);
      }
    } else if t[i] == OPEN_BRACKET {
      var j := SkipJson(t, i + 1);
      SkipJsonShrink(s, t, i + 1);
      if !At(t, j, CLOSE_BRACKET) {
        ElementsShrink(s, t, j);
      }
    } else {
      AtomShrink(s, t, i);
    }
  }

  lemma {:induction false} ValueShrunk(s: Str, t: Str, i: nat)
    requires s <= t && ScanValue(t, i).Got?
    requires ScanValue(t, i).end <= |t| && SkipJson(t, ScanValue(t, i).end) <= |s|
    ensures ScanValue(s, i) == ScanValue(t, i)
    ensures SkipJson(s, ScanValue(t, i).end) == SkipJson(t, ScanValue(t, i).end)
    decreases |t| - i, 4
  {
    ValueShrink(s, t, i);
    SkipJsonShrink(s, t, ScanValue(t, i).end);
  }

  lemma {:induction false} ElementsShrink(s: Str, t: Str, i: nat)
    requires s <= t && ScanElements(t, i).Elements? && ScanElements(t, i).end <= |s|
    ensures ScanElements(s, i) == ScanElements(t, i)
    decreases |t| - i, 5
  {
    hide ScanValue, ScanAtom, ScanKey, SkipJson;
    var Got(v, e) := ScanValue(t, i);
    assert e <= |t|;
    var j := SkipJson(t, e);
    if At(t, j, CLOSE_BRACKET) {
      ValueShrunk(s, t, i);
      assert ScanElements(s, i) == Elements([v], j + 1);
    } else {
      assert t[j] == COMMA;
      var k := SkipJson(t, j + 1);
      assert ScanElements(t, i) == AddElement(v, ScanElements(t, k));
      assert k < ScanElements(t, k).end;
      ValueShrunk(s, t, i);
      SkipJsonShrink(s, t, j + 1);
      assert SkipJson(s, j + 1) == k;
      ElementsShrink(s, t, k);
      assert ScanElements(s, i) == AddElement(v, ScanElements(s, k));
    }
  }

  lemma KeyShrink(s: Str, t: Str, i: nat)
    requires s <= t && ScanKey(t, i).Body? && ScanKey(t, i).end <= |s|
    ensures ScanKey(s, i) == ScanKey(t, i)
  {
    var e := ScanString(t, i + 1).end;
    var c := SkipJson(t, e);
    assert c + 1 <= ScanKey(t, i).end;
    StringShrink(s, t, i + 1);
    SkipJsonShrink(s, t, e);
    SkipJsonShrink(s, t, c + 1);
  }

  lemma {:induction false} MemberShrunk(s: Str, t: Str, i: nat)
    requires s <= t && ScanMember(t, i).Member?
    requires ScanMember(t, i).end <= |t| && SkipJson(t, ScanMember(t, i).end) <= |s|
    ensures ScanMember(s, i) == ScanMember(t, i)
    ensures SkipJson(s, ScanMember(t, i).end) == SkipJson(t, ScanMember(t, i).end)
    decreases |t| - i, 4
  {
    KeyShrink(s, t, i);
    ValueShrunk(s, t, ScanKey(t, i).end);
  }

  /** One turn of the loop over the members. */
  lemma MoreMembers(s: Str, i: nat, e: nat, j: nat, k: nat)
    requires ScanMember(s, i).Member? && ScanMember(s, i).end == e <= |s|
    requires SkipJson(s, e) == j && At(s, j, COMMA) && SkipJson(s, j + 1) == k
    ensures ScanMembers(s, i) == AddMember(ScanMember(s, i).key, ScanMember(s, i).v, ScanMembers(s, k))
    ensures ScanMembers(s, i).Members? ==> ScanMembers(s, k).Members? && ScanMembers(s, k).end == ScanMembers(s, i).end
  {
    hide SkipJson, ScanMember;
  }

  lemma {:induction false} MembersShrink(s: Str, t: Str, i: nat)
    requires s <= t && ScanMembers(t, i).Members? && ScanMembers(t, i).end <= |s|
    ensures ScanMembers(s, i) == ScanMembers(t, i)
    decreases |t| - i, 5
  {
    hide ScanValue, ScanAtom, ScanKey, SkipJson;
    var Member(key, v, e) := ScanMember(t, i);
    assert e <= |t|;
    var j := SkipJson(t, e);
    if At(t, j, CLOSE_BRACE) {
      MemberShrunk(s, t, i);
      assert ScanMembers(s, i) == Members([(key, v)], j + 1);
    } else {
      assert At(t, j, COMMA);
      var k := SkipJson(t, j + 1);
      MoreMembers(t, i, e, j, k);
      assert ScanMembers(t, k).Members? && k < ScanMembers(t, k).end;
      MemberShrunk(s, t, i);
      SkipJsonShrink(s, t, j + 1);
      assert SkipJson(s, j + 1) == k;
      MembersShrink(s, t, k);
      MoreMembers(s, i, e, j, k);
    }
  }

  lemma MembersStart(s: Str, i: nat)
    requires ScanMembers(s, i).Members?
    ensures ScanMember(s, i).Member? && At(s, i, QUOTE) && ScanMember(s, i).end <= |s|
    ensures var j := SkipJson(s, ScanMember(s, i).end); At(s, j, CLOSE_BRACE) || At(s, j, COMMA)
  {
    assert ScanKey(s, i).Body?;
  }

  lemma LastMember(s: Str, i: nat, e: nat, j: nat)
    requires ScanMember(s, i).Member? && ScanMember(s, i).end == e <= |s|
    requires SkipJson(s, e) == j && At(s, j, CLOSE_BRACE)
    ensures ScanMembers(s, i) == Members([(ScanMember(s, i).key, ScanMember(s, i).v)], j + 1)
  {
    hide SkipJson, ScanMember;
  }

  /** How an object is scanned: the brace, then nothing or the members. */
  lemma ObjectScan(s: Str, i: nat)
    requires ScanValue(s, i).Got? && ScanValue(s, i).v.JObject?
    ensures i + 1 <= |s| && s[i] == OPEN_BRACE
    ensures var j := SkipJson(s, i + 1);
            if At(s, j, CLOSE_BRACE) then ScanValue(s, i) == Got(JObject([]), j + 1)
            else At(s, j, QUOTE) && ScanMembers(s, j).Members?
                 && ScanValue(s, i) == Got(JObject(ScanMembers(s, j).ms), ScanMembers(s, j).end)
  {
    var j := SkipJson(s, i + 1);
    if !At(s, j, CLOSE_BRACE) {
      assert ScanMembers(s, j).Members?;
      MembersStart(s, j);
    }
  }

  // ----- dropping consumed text only shifts the positions

  function Back(r: Scan, b: nat): (q: Scan)
    requires r.Got? ==> b <= r.end
  {
    match r
    case Fail => Fail
    case Got(v, e) => Got(v, e - b)
  }

  lemma {:induction false} SkipJsonShift(s: Str, b: nat, i: nat)
    requires b + i <= |s|
    ensures SkipJson(s[b..], i) + b == SkipJson(s, b + i)
    decreases |s| - i
  {
    if b + i < |s| && IsJsonSpace(s[b + i]) {
      SkipJsonShift(s, b, i + 1);
    }
  }

  lemma {:induction false} DigitsEndShift(s: Str, b: nat, i: nat)
    requires b + i <= |s|
    ensures DigitsEnd(s[b..], i) + b == DigitsEnd(s, b + i)
    decreases |s| - i
  {
    if b + i < |s| && IsDigit(s[b + i]) {
      DigitsEndShift(s, b, i + 1);
    }
  }

  lemma IntEndShift(s: Str, b: nat, i: nat)
    requires b + i <= |s|
    ensures IntEnd(s, b + i) == match IntEnd(s[b..], i) case None => None case Some(j) => Some(b + j)
  {
    var j := if At(s, b + i, MINUS) then i + 1 else i;
    if b + j + 1 <= |s| {
      DigitsEndShift(s, b, j + 1);
    }
  }

  lemma FractionEndShift(s: Str, b: nat, j: nat)
    requires b + j <= |s|
    ensures FractionEnd(s, b + j) == b + FractionEnd(s[b..], j)
  {
    if b + j + 1 <= |s| {
      DigitsEndShift(s, b, j + 1);
    }
  }

  lemma ExponentEndShift(s: Str, b: nat, j: nat)
    requires b + j <= |s|
    ensures ExponentEnd(s, b + j) == b + ExponentEnd(s[b..], j)
  {
    var k := if At(s, b + j + 1, '+' as int) || At(s, b + j + 1, MINUS) then j + 2 else j + 1;
    if b + k <= |s| {
      DigitsEndShift(s, b, k);
    }
  }

  lemma NumberShift(s: Str, b: nat, i: nat)
    requires b + i <= |s|
    ensures ScanNumber(s[b..], i) == Back(ScanNumber(s, b + i), b)
  {
    hide DigitsEnd, FractionEnd, ExponentEnd, IntEnd, Integer;
    IntEndShift(s, b, i);
    if IntEnd(s, b + i).Some? {
      var j := IntEnd(s[b..], i).value;
      FractionEndShift(s, b, j);
      var f := FractionEnd(s[b..], j);
      ExponentEndShift(s, b, f);
      var e := ExponentEnd(s[b..], f);
      assert s[b..][i..j] == s[b + i..b + j];
      assert s[b..][i..e] == s[b + i..b + e];
    }
  }

  lemma WordShift(s: Str, b: nat, i: nat, word: Str, v: JValue)
    requires b + i <= |s|
    ensures ScanWord(s[b..], i, word, v) == Back(ScanWord(s, b + i, word, v), b)
  {
    if b + i + |word| <= |s| {
      assert s[b..][i..i + |word|] == s[b + i..b + i + |word|];
    }
  }

  lemma AtomShift(s: Str, b: nat, i: nat)
    requires b + i < |s|
    ensures ScanAtom(s[b..], i) == Back(ScanAtom(s, b + i), b)
  {
    hide ScanNumber, ScanWord;
    WordShift(s, b, i, Ascii("null"), JNull);
    WordShift(s, b, i, Ascii("true"), JBool(true));
    WordShift(s, b, i, Ascii("false"), JBool(false));
    WordShift(s, b, i, Ascii("NaN"), JConstant(Ascii("NaN")));
    WordShift(s, b, i, Ascii("Infinity"), JConstant(Ascii("Infinity")));
    WordShift(s, b, i, Ascii("-Infinity"), JConstant(Ascii("-Infinity")));
    NumberShift(s, b, i);
  }

  lemma Hex4Shift(s: Str, b: nat, i: nat)
    requires b <= |s|
    ensures Hex4(s[b..], i) == Hex4(s, b + i)
  {
  }

  lemma HexEscapeShift(s: Str, b: nat, i: nat)
    requires b <= |s|
    ensures ScanHexEscape(s, b + i) ==
            match ScanHexEscape(s[b..], i) case BadUnit => BadUnit case Unit(c, next) => Unit(c, b + next)
  {
    hide Hex4;
    Hex4Shift(s, b, i + 2);
    Hex4Shift(s, b, i + 8);
  }

  lemma {:induction false} StringShift(s: Str, b: nat, i: nat)
    requires b <= |s|
    ensures ScanString(s, b + i) ==
            match ScanString(s[b..], i) case BadBody => BadBody case Body(t, e) => Body(t, b + e)
    decreases |s| - i
  {
    hide ScanHexEscape, SimpleEscape;
    if b + i < |s| && s[b + i] != QUOTE {
      HexEscapeShift(s, b, i);
      assert ScanUnit(s, b + i) ==
        match ScanUnit(s[b..], i) case BadUnit => BadUnit case Unit(c, next) => Unit(c, b + next);
      if ScanUnit(s[b..], i).Unit? {
        StringShift(s, b, ScanUnit(s[b..], i).next);
      }
    }
  }

  lemma {:induction false} ValueShift(s: Str, b: nat, i: nat)
    requires b + i <= |s|
    ensures ScanValue(s[b..], i) == Back(ScanValue(s, b + i), b)
    decreases |s| - i, 3
  {
    hide ScanAtom, ScanString, ScanMembers, ScanElements, SkipJson;
    var u := s[b..];
    if b + i >= |s| {
    } else if s[b + i] == QUOTE {
      StringShift(s, b, i + 1);
    } else if s[b + i] == OPEN_BRACE {
      SkipJsonShift(s, b, i + 1);
      MembersShift(s, b, SkipJson(u, i + 1));
    } else if s[b + i] == OPEN_BRACKET {
      SkipJsonShift(s, b, i + 1);
      ElementsShift(s, b, SkipJson(u, i + 1));
    } else {
      AtomShift(s, b, i);
    }
  }

  lemma ElementsUnfold(s: Str, i: nat)
    ensures ScanElements(s, i) ==
            match ScanValue(s, i)
            case Fail => NoElements
            case Got(v, e) =>
              var j := SkipJson(s, e);
              if At(s, j, CLOSE_BRACKET) then Elements([v], j + 1)
              else if !At(s, j, COMMA) then NoElements
              else AddElement(v, ScanElements(s, SkipJson(s, j + 1)))
  {
    hide ScanValue, SkipJson;
  }

  lemma {:induction false} ElementsShift(s: Str, b: nat, i: nat)
    requires b + i <= |s|
    ensures ScanElements(s, b + i) ==
            match ScanElements(s[b..], i) case NoElements => NoElements case Elements(vs, e) => Elements(vs, b + e)
    decreases |s| - i, 5
  {
    hide ScanValue, SkipJson, ScanElements;
    var u := s[b..];
    ElementsUnfold(s, b + i);
    ElementsUnfold(u, i);
    ValueShift(s, b, i);
    if ScanValue(u, i).Got? {
      var e := ScanValue(u, i).end;
      SkipJsonShift(s, b, e);
      var j := SkipJson(u, e);
      if At(u, j, COMMA) {
        SkipJsonShift(s, b, j + 1);
        ElementsShift(s, b, SkipJson(u, j + 1));
      }
    }
  }

  lemma KeyShift(s: Str, b: nat, i: nat)
    requires b + i <= |s|
    ensures ScanKey(s, b + i) == match ScanKey(s[b..], i) case BadBody => BadBody case Body(t, e) => Body(t, b + e)
  {
    hide ScanString, SkipJson;
    var u := s[b..];
    StringShift(s, b, i + 1);
    if ScanString(u, i + 1).Body? {
      var e := ScanString(u, i + 1).end;
      assert e <= |u|;
      SkipJsonShift(s, b, e);
      var c := SkipJson(u, e);
      if At(u, c, COLON) {
        SkipJsonShift(s, b, c + 1);
      }
    }
  }

  lemma {:induction false} MemberShift(s: Str, b: nat, i: nat)
    requires b + i <= |s|
    ensures ScanMember(s, b + i) ==
            match ScanMember(s[b..], i) case NoMember => NoMember case Member(key, v, e) => Member(key, v, b + e)
    decreases |s| - i, 4
  {
    hide ScanValue, SkipJson, ScanKey;
    KeyShift(s, b, i);
    if ScanKey(s[b..], i).Body? {
      ValueShift(s, b, ScanKey(s[b..], i).end);
    }
  }

  lemma NoMoreMembers(s: Str, i: nat)
    requires match ScanMember(s, i)
             case NoMember => true
             case Member(_, _, e) => e <= |s| && !At(s, SkipJson(s, e), CLOSE_BRACE) && !At(s, SkipJson(s, e), COMMA)
    ensures ScanMembers(s, i) == NoMembers
  {
    hide SkipJson, ScanMember;
  }

  lemma {:induction false} MembersShift(s: Str, b: nat, i: nat)
    requires b + i <= |s|
    ensures ScanMembers(s, b + i) ==
            match ScanMembers(s[b..], i) case NoMembers => NoMembers case Members(ms, e) => Members(ms, b + e)
    decreases |s| - i, 5
  {
    hide ScanValue, SkipJson, ScanKey, ScanMember, ScanMembers;
    var u := s[b..];
    MemberShift(s, b, i);
    match ScanMember(u, i)
    case NoMember =>
      NoMoreMembers(u, i);
      NoMoreMembers(s, b + i);
    case Member(key, v, e) =>
      assert e <= |u|;
      SkipJsonShift(s, b, e);
      var j := SkipJson(u, e);
      if At(u, j, CLOSE_BRACE) {
        LastMember(u, i, e, j);
        LastMember(s, b + i, b + e, b + j);
      } else if At(u, j, COMMA) {
        SkipJsonShift(s, b, j + 1);
        var k := SkipJson(u, j + 1);
        MembersShift(s, b, k);
        MoreMembers(u, i, e, j, k);
        MoreMembers(s, b + i, b + e, b + j, b + k);
      } else {
        NoMoreMembers(u, i);
        NoMoreMembers(s, b + i);
      }
  }
}
