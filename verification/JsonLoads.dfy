/** The reader against `json.loads`: which texts both accept as an object. */
module JsonLoads {
  import opened Text
  import opened JsonScanner
  import opened JsonStream
  import G = JsonGrammar
  import T = JsonTree
  import Utf8

  // ----- the gaps of a parse

  /** The white space from i on is that of JSON only. */
  predicate Same(t: Str, i: nat)
    requires i <= |t|
  {
    forall k :: i <= k < SkipSpace(t, i) ==> IsJsonSpace(t[k])
  }

  lemma {:induction false} SameSkips(t: Str, i: nat)
    requires i <= |t|
    ensures Same(t, i) <==> SkipSpace(t, i) == SkipJson(t, i)
    decreases |t| - i
  {
    if i < |t| && IsSpace(t[i]) {
      SameSkips(t, i + 1);
      assert Same(t, i) <==> IsJsonSpace(t[i]) && Same(t, i + 1);
    }
  }

  /** The gaps before a key and between it and its colon. */
  predicate KeyGaps(t: Str, i: nat)
    requires i <= |t|
  {
    Same(t, i) && (ScanValue(t, SkipSpace(t, i)).Got? ==> Same(t, ScanValue(t, SkipSpace(t, i)).end))
  }

  /** The gaps that `ParseItems` skips. */
  predicate ItemsGaps(t: Str, i: nat)
    requires i <= |t|
    decreases |t| - i, 2
  {
    KeyGaps(t, i) && (ParseKey(t, i).Body? ==> PairGaps(t, ParseKey(t, i).end))
  }

  predicate PairGaps(t: Str, i: nat)
    requires i <= |t|
    decreases |t| - i, 1
  {
    Same(t, i) && (ScanValue(t, SkipSpace(t, i)).Got? ==> MarkerGaps(t, ScanValue(t, SkipSpace(t, i)).end))
  }

  predicate MarkerGaps(t: Str, i: nat)
    requires i <= |t|
    decreases |t| - i, 3
  {
    var m := SkipSpace(t, i);
    Same(t, i) && (At(t, m, COMMA) ==> ItemsGaps(t, m + 1)) && (At(t, m, CLOSE_BRACE) ==> Same(t, m + 1))
  }

  predicate BodyGaps(t: Str, i: nat)
    requires i <= |t|
  {
    var j := SkipSpace(t, i);
    Same(t, i) && (if At(t, j, CLOSE_BRACE) then Same(t, j + 1) else ItemsGaps(t, j))
  }

  /** Every gap between the tokens of the object, before it and after it, holds white space of
      JSON only; what strings hold does not matter. */
  predicate PlainGaps(t: Str) {
    var i := SkipSpace(t, 0);
    Same(t, 0) && (At(t, i, OPEN_BRACE) ==> BodyGaps(t, i + 1))
  }

  lemma ItemsUnfold(t: Str, i: nat, key: Str, c: nat, v: JValue, e: nat)
    requires i <= |t| && ParseKey(t, i) == Body(key, c) && ScanValue(t, SkipSpace(t, c)) == Got(v, e)
    ensures i < e <= |t| && ParseItems(t, i) == Cons((key, v), ParseMarker(t, e))
    ensures ItemsGaps(t, i) <==> KeyGaps(t, i) && Same(t, c) && MarkerGaps(t, e)
  {
    hide ScanValue, SkipSpace, ParseKey, KeyGaps, Same;
  }

  lemma MarkerComma(t: Str, e: nat)
    requires e <= |t| && At(t, SkipSpace(t, e), COMMA)
    ensures ParseMarker(t, e) == ParseItems(t, SkipSpace(t, e) + 1)
    ensures MarkerGaps(t, e) <==> Same(t, e) && ItemsGaps(t, SkipSpace(t, e) + 1)
  {
    hide SkipSpace, Same, ItemsGaps;
  }

  lemma MarkerClose(t: Str, e: nat)
    requires e <= |t| && At(t, SkipSpace(t, e), CLOSE_BRACE)
    ensures ParseMarker(t, e) == Outcome([], SkipSpace(t, SkipSpace(t, e) + 1) == |t|)
    ensures MarkerGaps(t, e) <==> Same(t, e) && Same(t, SkipSpace(t, e) + 1)
  {
    hide SkipSpace, Same;
  }

  // ----- json.loads accepts no more than the reader

  lemma SkipBoth(s: Str, i: nat)
    requires i <= |s|
    requires SkipJson(s, i) < |s| && !IsSpace(s[SkipJson(s, i)])
    ensures SkipSpace(s, i) == SkipJson(s, i) && Same(s, i)
    decreases |s| - i
  {
    SameSkips(s, i);
    if IsJsonSpace(s[i]) {
      SkipBoth(s, i + 1);
    }
  }

  lemma SkipBothToEnd(s: Str, i: nat)
    requires i <= |s| && SkipJson(s, i) == |s|
    ensures SkipSpace(s, i) == |s| && Same(s, i)
    decreases |s| - i
  {
    SameSkips(s, i);
    if i < |s| {
      SkipBothToEnd(s, i + 1);
    }
  }

  lemma SkipTwice(t: Str, i: nat)
    requires i <= |t|
    ensures SkipSpace(t, SkipSpace(t, i)) == SkipSpace(t, i) && SkipJson(t, SkipJson(t, i)) == SkipJson(t, i)
    decreases |t| - i
  {
  }

  lemma KeyLoads(t: Str, i: nat)
    requires i <= |t| && ScanKey(t, i).Body?
    ensures ParseKey(t, i).Body? && ParseKey(t, i).text == ScanKey(t, i).text
    ensures SkipJson(t, ParseKey(t, i).end) == ScanKey(t, i).end
    ensures KeyGaps(t, i)
  {
    hide Same, ScanString;
    QuoteStarts(t, i);
    SkipBoth(t, i);
    var e := ScanString(t, i + 1).end;
    assert ScanValue(t, i) == Got(JString(ScanString(t, i + 1).text), e);
    SkipBoth(t, e);
  }

  lemma QuoteStarts(t: Str, i: nat)
    requires At(t, i, QUOTE)
    ensures SkipJson(t, i) == i && !IsSpace(t[i])
  {
  }

  /** A value does not start with white space. */
  lemma ValueStart(t: Str, i: nat)
    requires ScanValue(t, i).Got?
    ensures i < |t| && !IsSpace(t[i])
  {
    if t[i] != QUOTE && t[i] != OPEN_BRACE && t[i] != OPEN_BRACKET && ScanNumber(t, i).Got? {
      NotAWord(t, i);
    }
  }

  lemma MemberLoads(t: Str, i: nat)
    requires i <= |t| && ScanMember(t, i).Member?
    ensures var Member(key, v, e) := ScanMember(t, i);
            i < e <= |t| && ParseItems(t, i) == Cons((key, v), ParseMarker(t, e))
            && (ItemsGaps(t, i) <==> MarkerGaps(t, e))
  {
    hide ScanValue, SkipSpace, SkipJson, Same, KeyGaps, ItemsGaps, MarkerGaps, ScanKey, ParseKey, ParseItems, ParseMarker;
    KeyLoads(t, i);
    ValueStart(t, ScanKey(t, i).end);
    var c := ParseKey(t, i).end;
    SkipBoth(t, c);
    var Member(key, v, e) := ScanMember(t, i);
    ItemsUnfold(t, i, key, c, v, e);
  }

  lemma {:induction false} MembersLoad(t: Str, i: nat)
    requires i <= |t| && ScanMembers(t, i).Members?
    requires ScanMembers(t, i).end <= |t| && SkipSpace(t, ScanMembers(t, i).end) == |t| && Same(t, ScanMembers(t, i).end)
    ensures ParseItems(t, i) == Outcome(ScanMembers(t, i).ms, true) && ItemsGaps(t, i)
    decreases |t| - i
  {
    hide ScanValue, ScanAtom, ScanKey, SkipJson, SkipSpace, ScanMembers, ScanMember, ItemsGaps, MarkerGaps, ParseItems, ParseMarker, Same;
    MembersStart(t, i);
    MemberLoads(t, i);
    var Member(key, v, e) := ScanMember(t, i);
    var j := SkipJson(t, e);
    if At(t, j, CLOSE_BRACE) {
      LastMember(t, i, e, j);
      SkipBoth(t, e);
      MarkerClose(t, e);
      assert ParseMarker(t, e) == Outcome([], true);
    } else {
      assert At(t, j, COMMA);
      SkipBoth(t, e);
      var k := SkipJson(t, j + 1);
      MoreMembers(t, i, e, j, k);
      MembersStart(t, k);
      MembersLoad(t, k);
      SkipBoth(t, j + 1);
      MarkerComma(t, e);
      ItemsFrom(t, j + 1);
    }
  }

  /** The gap before the first key may be skipped beforehand. */
  lemma ItemsFrom(t: Str, i: nat)
    requires i <= |t| && Same(t, i)
    ensures ParseItems(t, i) == ParseItems(t, SkipSpace(t, i))
    ensures ItemsGaps(t, i) <==> ItemsGaps(t, SkipSpace(t, i))
  {
    hide ScanValue, SkipSpace, SkipJson;
    var k := SkipSpace(t, i);
    SkipTwice(t, i);
    assert ParseKey(t, i) == ParseKey(t, k);
    assert KeyGaps(t, i) == KeyGaps(t, k);
    if ParseKey(t, i).Body? {
      hide Same, KeyGaps;
      var Body(key, c) := ParseKey(t, i);
      assert ParseItems(t, i) == ParsePair(t, key, c) == ParseItems(t, k);
    }
  }

  /** A text `json.loads` accepts as an object parses here to the same pairs, before
      duplicate keys collapse, and with JSON white space in every gap. */
  lemma LoadsParses(t: Str)
    requires LoadsObject(t).Some?
    ensures Parse(t) == Outcome(LoadsObject(t).value, true) && PlainGaps(t)
  {
    hide ScanValue, ScanAtom, ScanKey, ScanMembers, ScanMember, ParseItems, ItemsGaps, Same;
    var i := SkipJson(t, 0);
    var Got(v, e) := ScanValue(t, i);
    assert e <= |t|;
    ObjectScan(t, i);
    assert Parse(t) == ParseBody(t, i + 1) && (PlainGaps(t) <==> BodyGaps(t, i + 1)) by {
      SkipBoth(t, 0);
    }
    assert SkipSpace(t, e) == |t| && Same(t, e) by {
      SkipBothToEnd(t, e);
    }
    var j := SkipJson(t, i + 1);
    SkipBoth(t, i + 1);
    if At(t, j, CLOSE_BRACE) {
      assert e == j + 1;
      assert ParseBody(t, i + 1) == Outcome([], true) && BodyGaps(t, i + 1);
    } else {
      MembersLoad(t, j);
      assert ParseBody(t, i + 1) == ParseItems(t, j) && (BodyGaps(t, i + 1) <==> ItemsGaps(t, j));
    }
  }

  // ----- and no less where the gaps are plain

  lemma KeyLoaded(t: Str, i: nat)
    requires i <= |t| && ParseKey(t, i).Body? && KeyGaps(t, i) && Same(t, ParseKey(t, i).end)
    ensures var k := ScanKey(t, SkipJson(t, i));
            k.Body? && k.text == ParseKey(t, i).text && k.end == SkipJson(t, ParseKey(t, i).end)
  {
    SameSkips(t, i);
    var p := SkipJson(t, i);
    StringScan(t, p);
    var Got(k, e) := ScanValue(t, p);
    assert ScanString(t, p + 1) == Body(k.s, e);
    SameSkips(t, e);
  }

  lemma {:induction false} ItemsLoaded(t: Str, i: nat)
    requires i <= |t| && ParseItems(t, i).ok && ItemsGaps(t, i)
    ensures var m := ScanMembers(t, SkipJson(t, i));
            m.Members? && m.ms == ParseItems(t, i).items && m.end <= |t| && SkipJson(t, m.end) == |t|
    decreases |t| - i
  {
    hide ScanValue, ScanKey, ScanMembers, ScanMember, SkipJson, SkipSpace, Same, KeyGaps, ParseKey, ItemsGaps, MarkerGaps, ParseItems, ParseMarker;
    ItemsHead(t, i);
    var Body(key, c) := ParseKey(t, i);
    var Got(v, e) := ScanValue(t, SkipSpace(t, c));
    ItemsUnfold(t, i, key, c, v, e);
    KeyLoaded(t, i);
    SameSkips(t, c);
    var p := SkipJson(t, i);
    MemberIs(t, p, key, v, e);
    SameSkips(t, e);
    MarkerSame(t, e);
    var j := SkipJson(t, e);
    if At(t, j, COMMA) {
      MarkerComma(t, e);
      SameStart(t, j + 1);
      ItemsLoaded(t, j + 1);
      MoreMembers(t, p, e, j, SkipJson(t, j + 1));
    } else {
      assert At(t, j, CLOSE_BRACE) by {
        MarkerEnds(t, e);
      }
      MarkerClose(t, e);
      LastMember(t, p, e, j);
      SameSkips(t, j + 1);
    }
  }

  lemma ItemsHead(t: Str, i: nat)
    requires i <= |t| && ParseItems(t, i).ok
    ensures ParseKey(t, i).Body? && ScanValue(t, SkipSpace(t, ParseKey(t, i).end)).Got?
  {
    hide ScanValue, SkipSpace, ParseKey;
  }

  lemma MemberIs(t: Str, p: nat, key: Str, v: JValue, e: nat)
    requires p <= |t| && ScanKey(t, p).Body? && ScanKey(t, p).text == key && ScanValue(t, ScanKey(t, p).end) == Got(v, e)
    ensures ScanMember(t, p) == Member(key, v, e)
  {
    hide ScanKey, ScanValue;
  }

  lemma MarkerSame(t: Str, e: nat)
    requires e <= |t| && MarkerGaps(t, e)
    ensures Same(t, e)
  {
    hide Same, SkipSpace;
  }

  lemma MarkerEnds(t: Str, e: nat)
    requires e <= |t| && ParseMarker(t, e).ok && !At(t, SkipSpace(t, e), COMMA)
    ensures At(t, SkipSpace(t, e), CLOSE_BRACE)
  {
    hide SkipSpace;
  }

  lemma SameStart(t: Str, i: nat)
    requires i <= |t| && ItemsGaps(t, i)
    ensures SkipSpace(t, i) == SkipJson(t, i)
  {
    SameSkips(t, i);
  }

  /** MAIN: a text the reader accepts is one `json.loads` accepts as an object if and only if
      every gap of its parse holds JSON white space only, and then the pairs are the same. */
  lemma ParsesLoads(t: Str)
    ensures Parse(t).ok ==> (LoadsObject(t).Some? <==> PlainGaps(t))
    ensures LoadsObject(t).Some? <==> Parse(t).ok && PlainGaps(t)
    ensures LoadsObject(t).Some? ==> LoadsObject(t) == Some(Parse(t).items)
  {
    if LoadsObject(t).Some? {
      LoadsParses(t);
    }
    if Parse(t).ok && PlainGaps(t) {
      GapsLoad(t);
    }
  }

  lemma GapsLoad(t: Str)
    requires Parse(t).ok && PlainGaps(t)
    ensures LoadsObject(t).Some?
  {
    hide ScanMembers, ItemsGaps, Same, SkipSpace, SkipJson, ParseItems;
    SameSkips(t, 0);
    var i := SkipJson(t, 0);
    SameSkips(t, i + 1);
    var j := SkipJson(t, i + 1);
    if At(t, j, CLOSE_BRACE) {
      SameSkips(t, j + 1);
    } else {
      ItemsLoaded(t, j);
      SkipTwice(t, i + 1);
      assert SkipJson(t, j) == j;
    }
  }

  /** With other white space it accepts more: a no-break space after the brace. */
  lemma AcceptsMoreSpace()
    ensures Parse([OPEN_BRACE, 0xA0, CLOSE_BRACE]) == Outcome([], true)
    ensures LoadsObject([OPEN_BRACE, 0xA0, CLOSE_BRACE]) == None
  {
    var t := [OPEN_BRACE, 0xA0, CLOSE_BRACE];
    assert SkipSpace(t, 0) == 0 && SkipSpace(t, 1) == 2 && SkipSpace(t, 3) == 3;
    assert SkipJson(t, 0) == 0 && SkipJson(t, 1) == 1;
    if ScanMembers(t, 1).Members? {
      MembersStart(t, 1);
    }
  }

  /** Inside a string other white space is no obstacle: a no-break space as a key. */
  lemma SpaceInStringIsPlain()
    ensures var t := [OPEN_BRACE, QUOTE, 0xA0, QUOTE, COLON, 49, CLOSE_BRACE];
            PlainGaps(t) && Parse(t) == Outcome([([0xA0], JInt(1))], true) && LoadsObject(t) == Some([([0xA0], JInt(1))])
  {
    var t := [OPEN_BRACE, QUOTE, 0xA0, QUOTE, COLON, 49, CLOSE_BRACE];
    assert ScanString(t, 3) == Body([], 4) && ScanUnit(t, 2) == Unit(0xA0, 3);
    assert ScanString(t, 2) == Body([0xA0] + [], 4) && [0xA0] + [] == [0xA0];
    assert ScanValue(t, 1) == Got(JString([0xA0]), 4);
    assert t[5..6] == [49] && [49][..0] == [] && Natural([49]) == 10 * Natural([]) + 1;
    assert DigitsEnd(t, 6) == 6 && IntEnd(t, 5) == Some(6);
    assert ScanNumber(t, 5) == Got(JInt(1), 6) && ScanValue(t, 5) == Got(JInt(1), 6);
    SpaceParses(t);
    ParsesLoads(t);
  }

  lemma SpaceParses(t: Str)
    requires t == [OPEN_BRACE, QUOTE, 0xA0, QUOTE, COLON, 49, CLOSE_BRACE]
    requires ScanValue(t, 1) == Got(JString([0xA0]), 4) && ScanValue(t, 5) == Got(JInt(1), 6)
    ensures PlainGaps(t) && Parse(t) == Outcome([([0xA0], JInt(1))], true)
  {
    hide ScanValue;
    assert SkipSpace(t, 0) == 0 && SkipSpace(t, 1) == 1 && SkipSpace(t, 4) == 4 && SkipSpace(t, 5) == 5;
    assert SkipSpace(t, 6) == 6 && SkipSpace(t, 7) == 7;
    assert ParseMarker(t, 6) == Outcome([], true) && MarkerGaps(t, 6);
    assert ParseKey(t, 1) == Body([0xA0], 5) && KeyGaps(t, 1);
    assert ParsePair(t, [0xA0], 5) == Cons(([0xA0], JInt(1)), Outcome([], true)) && PairGaps(t, 5);
    assert ParseItems(t, 1) == ParsePair(t, [0xA0], 5) && ItemsGaps(t, 1);
  }

  // ----- the texts of the grammar

  /** MAIN: the reader takes every object of the grammar of RFC 8259, whatever its escapes and its
      white space, with the members the grammar gives it. */
  lemma GrammarParses(s: Str, before: Str, gap: Str, members: T.Pairs, after: Str)
    requires T.ObjectText(s, before, gap, members, after)
    ensures Parse(s) == Outcome(T.PairValues(members), true)
  {
    hide Parse, LoadsObject, T.ObjectText, T.PairValues, PlainGaps;
    T.ObjectTextLoads(s, before, gap, members, after);
    ParsesLoads(s);
  }

  /** A dict of integers as `json.dumps` prints it: keys in ASCII, a space after colons and commas. */
  function DumpPairs(items: seq<(Str, int)>, upper: bool, first: bool): (r: T.Pairs)
    requires forall i :: 0 <= i < |items| ==> Utf8.Encodable(items[i].0)
    ensures (r.NoPair? <==> items == []) && T.ValidPairs(r)
  {
    if items == [] then T.NoPair
    else
      var (key, n) := items[0];
      KeyPieces(key, upper);
      T.Pair(if first then [] else [0x20], G.Flat(G.AllPieces(key, upper)), [], [0x20],
             T.Num(T.Number(n < 0, if n < 0 then -n else n, [], [], [])), [], DumpPairs(items[1..], upper, false))
  }

  function Dumped(items: seq<(Str, int)>): seq<Item> {
    seq(|items|, i requires 0 <= i < |items| => (items[i].0, JInt(items[i].1)))
  }

  lemma KeyPieces(key: Str, upper: bool)
    requires Utf8.Encodable(key)
    ensures var ps := G.Flat(G.AllPieces(key, upper)); G.ValidPieces(ps) && G.PiecesValue(ps) == key
  {
    forall i | 0 <= i < |key| ensures G.Writes(G.AllPieces(key, upper)[i], key[i]) {
      G.EveryCharacter(key[i], upper);
    }
    G.WrittenValue(G.AllPieces(key, upper), key);
  }

  lemma {:induction false} DumpIsTree(items: seq<(Str, int)>, upper: bool, first: bool)
    requires forall i :: 0 <= i < |items| ==> Utf8.Encodable(items[i].0)
    ensures T.PairValues(DumpPairs(items, upper, first)) == Dumped(items)
  {
    hide G.ValidPieces, G.Flat;
    if items != [] {
      KeyPieces(items[0].0, upper);
      DumpIsTree(items[1..], upper, false);
      assert Dumped(items) == [(items[0].0, JInt(items[0].1))] + Dumped(items[1..]);
    }
  }

  /** MAIN: what `json.dumps` prints for a dict of integers is read back, however it is cut. */
  lemma DumpReads(items: seq<(Str, int)>, upper: bool, f: Stream)
    requires forall i :: 0 <= i < |items| ==> Utf8.Encodable(items[i].0)
    requires !f.fault && f.Text() == T.TreeText(T.Obj([], DumpPairs(items, upper, true)))
    ensures Read(f) == Outcome(Dumped(items), true)
  {
    hide Parse, Read, T.ValidPairs, T.TreeText;
    DumpIsTree(items, upper, true);
    var tree := T.Obj([], DumpPairs(items, upper, true));
    assert [] + (T.TreeText(tree) + []) == T.TreeText(tree);
    GrammarParses(f.Text(), [], [], DumpPairs(items, upper, true), []);
    ReadIndependentOfPieces(f.Text());
  }
}
