/** One text and two ways to cut it that the reader tells apart. */
module JsonCutWitness {
  import opened Text
  import opened JsonScanner
  import opened JsonStream

  /** `{"a":1.5}` */
  const FRACTION: Str := [OPEN_BRACE, QUOTE, 97, QUOTE, COLON, 49, DOT, 53, CLOSE_BRACE]

  const ONE_AND_A_HALF: JValue := JFloat([49, DOT, 53])

  lemma FractionKey(v: Str)
    requires FRACTION[..6] <= v
    ensures |v| >= 6 && ScanValue(v, 1) == Got(JString([97]), 4)
  {
    var t := FRACTION;
    assert forall i :: 0 <= i < 6 ==> v[i] == t[..6][i] == t[i];
    assert ScanString(v, 3) == Body([], 4);
    assert ScanUnit(v, 2) == Unit(97, 3);
    assert ScanString(v, 2) == Body([97] + [], 4) && [97] + [] == [97];
    assert v[1] == QUOTE && ScanString(v, 1 + 1) == Body([97], 4);
  }

  lemma FractionScan()
    ensures var t := FRACTION;
            && ScanValue(t, 1) == Got(JString([97]), 4)
            && ScanValue(t, 5) == ScanAtom(t, 5) == Got(ONE_AND_A_HALF, 8)
            && IntEnd(t, 5) == Some(6) && Integer(t[5..6]) == 1
  {
    var t := FRACTION;
    FractionKey(t);
    assert DigitsEnd(t, 6) == 6 && DigitsEnd(t, 8) == 8 && DigitsEnd(t, 7) == 8;
    assert IntEnd(t, 5) == Some(6);
    assert FractionEnd(t, 6) == 8 && ExponentEnd(t, 8) == 8;
    assert ScanNumber(t, 5) == Got(JFloat(t[5..8]), 8);
    assert ScanAtom(t, 5) == ScanNumber(t, 5);
    assert t[5..8] == [49, DOT, 53];
    assert t[5..6] == [49] && [49][..0] == [];
    assert Natural([49]) == 10 * Natural([]) + 1;
  }

  lemma FractionParses()
    ensures Parse(FRACTION) == Outcome([([97], ONE_AND_A_HALF)], true)
  {
    hide ScanValue;
    var t := FRACTION;
    FractionScan();
    assert SkipSpace(t, 9) == 9 && SkipSpace(t, 8) == 8 && SkipSpace(t, 5) == 5 && SkipSpace(t, 4) == 4;
    assert SkipSpace(t, 1) == 1 && SkipSpace(t, 0) == 0;
    assert ParseKey(t, 1) == Body([97], 5);
    assert ParseMarker(t, 8) == Outcome([], true);
    assert ParsePair(t, [97], 5) == Cons(([97], ONE_AND_A_HALF), Outcome([], true));
    assert ParseItems(t, 1) == ParsePair(t, [97], 5);
  }

  /** Delivered whole, it reads as it parses. */
  lemma FractionWhole()
    ensures Read(Stream([FRACTION], false)) == Parse(FRACTION)
  {
    hide ScanValue, Skip, Peek, SkipSpace, Read;
    var t, f, c := FRACTION, Stream([FRACTION], false), Cursor(0, false, 0);
    assert Concat([t][1..]) == [] && Concat([t]) == t + [];
    assert f.pieces[..1] == f.pieces && f.Visible(1) == t == f.Text();
    assert f.pieces[..0] == [] && f.Visible(0) == [];
    FractionParses();
    FractionPositions();
    ExpectText(f, c, OPEN_BRACE);
    var d := Expect(f, c, OPEN_BRACE).value;
    assert d.n == 1 && d.p == 1;
    LookText(f, d);
    var e := Look(f, d).value;
    assert e.n == 1 && e.p == 1;
    WholeKey(e);
    var g := Cursor(1, e.eof, 5);
    assert ReadItems(f, e).items != [] && ReadItems(f, e).ok by {
      WholePair(g);
    }
    assert ReadBody(f, d) == ReadItems(f, e);
    assert Read(f) == ReadBody(f, d) by {
      ReadOf(f, d);
    }
    ReadRefinesParse(f);
  }

  lemma ReadOf(f: Stream, d: Cursor)
    requires Expect(f, Cursor(0, false, 0), OPEN_BRACE) == Some(d)
    ensures Read(f) == ReadBody(f, d)
  {
  }

  lemma FractionPositions()
    ensures var t := FRACTION;
            && SkipSpace(t, 0) == 0 && SkipSpace(t, 1) == 1 && SkipSpace(t, 4) == 4 && SkipSpace(t, 5) == 5
            && SkipSpace(t, 8) == 8 && SkipSpace(t, 9) == 9
  {
  }

  /** With the whole text visible the key is read at once. */
  lemma WholeKey(c: Cursor)
    requires c.n == 1 && c.p == 1
    requires Ok(Stream([FRACTION], false), c)
    ensures ReadKey(Stream([FRACTION], false), c) == Key([97], Cursor(1, c.eof, 5))
  {
    hide ScanValue, Peek, SkipSpace;
    var t, f := FRACTION, Stream([FRACTION], false);
    assert Concat([t][1..]) == [] && f.pieces[..1] == f.pieces && f.Visible(1) == t;
    FractionScan();
    assert Skip(f, c) == Some(c);
    assert ReadValue(f, c) == Value(JString([97]), c.(p := 4));
    assert Skip(f, c.(p := 4)) == Some(c.(p := 4));
    assert Look(f, c.(p := 4)) == Some(c.(p := 4)) by {
      PeekVisible(f, c.(p := 4));
    }
  }

  lemma PeekVisible(f: Stream, c: Cursor)
    requires Ok(f, c) && c.p < |f.Visible(c.n)|
    ensures Peek(f, c) == Some(c)
  {
  }

  lemma WholePair(c: Cursor)
    requires c.n == 1 && c.p == 5
    requires Ok(Stream([FRACTION], false), c)
    ensures ReadPair(Stream([FRACTION], false), [97], c) == Outcome([([97], ONE_AND_A_HALF)], true)
  {
    hide ScanValue, Peek, SkipSpace, Look;
    var t, f := FRACTION, Stream([FRACTION], false);
    assert Concat([t][1..]) == [] && Concat([t]) == t + [] && f.pieces[..1] == f.pieces && f.Visible(1) == t == f.Text();
    FractionScan();
    FractionPositions();
    assert Skip(f, c) == Some(c);
    var d := c.(p := 8);
    assert ReadValue(f, c) == Value(ONE_AND_A_HALF, d);
    LookText(f, d);
    var e := Look(f, d).value;
    assert e.p == 8 && e.n == 1;
    var g := e.(p := 9);
    LookText(f, g);
    assert Finish(f, g) == Outcome([], true);
    assert ReadMarker(f, d) == Outcome([], true);
  }

  /** One character at a time, it reads as the integer 1 and then fails. */
  lemma FractionOneByOne()
    ensures Read(OneByOne(FRACTION)) == Outcome([([97], JInt(1))], false)
  {
    hide ScanValue, Skip, Look, ReadValue, SkipSpace, Read;
    var t, f, c := FRACTION, OneByOne(FRACTION), Cursor(0, false, 0);
    OneByOneText(t);
    FractionScan();
    FractionPositions();
    FractionParses();
    assert ParseKey(t, 1) == Body([97], 5);
    ExpectText(f, c, OPEN_BRACE);
    SkipTight(t, c);
    var d := Expect(f, c, OPEN_BRACE).value;
    LookText(f, d);
    SkipTight(t, d);
    var e := Look(f, d).value;
    ReadKeyText(f, e);
    assert ReadKey(f, e).Key? && ReadKey(f, e).c.p == 5;
    KeyTight(t, e);
    var g := ReadKey(f, e).c;
    FractionCut(g);
    assert ReadItems(f, e) == ReadPair(f, [97], g);
    assert ReadBody(f, d) == ReadItems(f, e);
    ReadOf(f, d);
  }

  lemma KeyTight(t: Str, c: Cursor)
    requires Ok(OneByOne(t), c) && Tight(c) && ReadKey(OneByOne(t), c).Key?
    ensures Tight(ReadKey(OneByOne(t), c).c)
  {
    hide Skip, Look, ReadValue;
    var f := OneByOne(t);
    SkipTight(t, c);
    var d := Skip(f, c).value;
    ReadValueTight(t, d);
    SkipTight(t, ReadValue(f, d).c);
  }

  lemma FractionCut(c: Cursor)
    requires Ok(OneByOne(FRACTION), c) && Tight(c) && c.p == 5
    ensures ReadPair(OneByOne(FRACTION), [97], c) == Outcome([([97], JInt(1))], false)
  {
    hide ScanValue, Look, ReadValue, SkipSpace;
    var t, f := FRACTION, OneByOne(FRACTION);
    OneByOneText(t);
    FractionScan();
    FractionPositions();
    SkipTight(t, c);
    SkipText(f, c);
    var d := Skip(f, c).value;
    ReadFloatCut(t, d);
    var e := Cursor(7, false, 6);
    CutStops(f, e);
  }

  /** A text and two ways to cut it with different outcomes. */
  lemma TwoCuts()
    ensures var whole, single := Stream([FRACTION], false), OneByOne(FRACTION);
            && whole.Text() == single.Text() == FRACTION
            && Read(whole) == Outcome([([97], ONE_AND_A_HALF)], true)
            && Read(single) == Outcome([([97], JInt(1))], false)
  {
    FractionParses();
    FractionWhole();
    FractionOneByOne();
    OneByOneText(FRACTION);
    assert Concat([FRACTION][1..]) == [] && Concat([FRACTION]) == FRACTION + [];
  }
}
