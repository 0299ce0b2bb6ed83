/** The converse of the written forms: whatever either alternative of
    `COORD_TO_DECIMAL_REGEX` matches is a well-formed written token, and the
    match holds the value that token was written with. */
module TokenRead {
  import opened Options
  import opened Chars
  import opened Token
  import opened TokenFacts
  import opened TokenText

  /** Whatever `MarkedNumber` reads at `i` is an optional group written
      there: digits and their mark, or nothing. */
  lemma MarkedGroupOf(s: string, i: nat, minutes: bool) returns (g: Option<string>, mark: char)
    requires i <= |s|
    ensures g.Some? ==> Digits(g.value)
    ensures if minutes then IsMinuteMark(mark) else IsSecondMark(mark)
    ensures i + |Group(g, mark)| <= |s| && WrittenAt(s, i, Group(g, mark))
    ensures MarkedNumber(s, i, minutes) == (GroupNumber(g), i + |Group(g, mark)|)
  {
    var e := RunEnd(s, i, Digit);
    if i < e < |s| && (if minutes then IsMinuteMark(s[e]) else IsSecondMark(s[e])) {
      g := Some(s[i..e]);
      mark := s[e];
      RunValueOfSlice(s, i, e);
      assert Group(g, mark) == s[i..e + 1];
    } else {
      g := None;
      mark := if minutes then '\U{02B9}' else '\U{02BA}';
    }
  }

  /** The whitespace a run of `\s` covers. */
  lemma BlankRun(s: string, i: nat, e: nat)
    requires i <= |s| && e == RunEnd(s, i, Space)
    ensures Blank(s[i..e])
  {
    forall k | 0 <= k < e - i ensures IsSpace(s[i..e][k]) {
      assert s[i..e][k] == s[i + k];
    }
  }

  /** The token a degree match at `p` reads, and the marks it is written with. */
  lemma DmsOf(s: string, p: nat) returns (t: Dms, mk: Marks)
    requires DmsAt(s, p).Some?
    ensures WellFormedDms(t, mk) && WrittenAt(s, p, DmsText(t, mk))
    ensures DmsAt(s, p) == Some(DmsMatch(t))
  {
    var a := RunEnd(s, p + 1, Space);
    var b := RunEnd(s, a, Digit);
    DmsAtHasMark(s, p);
    DmsAtGroups(s, p, a, b);
    t, mk := DmsTokenAt(s, p, a, b);
  }

  /** The token read from the runs and groups the degree pattern finds at `p`. */
  lemma DmsTokenAt(s: string, p: nat, a: nat, b: nat) returns (t: Dms, mk: Marks)
    requires p < |s| && IsDirection(s[p]) && a == RunEnd(s, p + 1, Space) && b == RunEnd(s, a, Digit)
    requires a < b < |s| && IsDegreeMark(s[b])
    ensures WellFormedDms(t, mk) && WrittenAt(s, p, DmsText(t, mk))
    ensures DmsGroups(s, p, a, b) == DmsMatch(t)
  {
    var gap, deg := DmsHeadOf(s, p, a, b);
    var g1, m1, c, g2, m2 := GroupsAfter(s, b);
    GroupsRead(s, p, a, b, c, GroupNumber(g1), GroupNumber(g2));
    t, mk := DmsTextOf(s, p, b, gap, deg, g1, m1, g2, m2);
  }

  /** The head of a degree match: letter, whitespace, degree digits, mark. */
  lemma DmsHeadOf(s: string, p: nat, a: nat, b: nat) returns (gap: string, deg: string)
    requires p < |s| && a == RunEnd(s, p + 1, Space) && b == RunEnd(s, a, Digit) && a < b < |s|
    ensures |gap| == a - p - 1 && |deg| == b - a && Blank(gap) && Digits(deg)
    ensures WrittenAt(s, p, [s[p]] + gap + deg + [s[b]])
    ensures RunValue(s, a, b) == DigitsValue(deg)
  {
    gap := s[p + 1..a];
    deg := s[a..b];
    assert s[p..b + 1] == [s[p]] + gap + deg + [s[b]];
    BlankRun(s, p + 1, a);
    RunValueOfSlice(s, a, b);
  }

  /** The minutes group and the seconds group read after the degree mark at
      `b`, as they are written, and where the seconds group starts. */
  lemma GroupsAfter(s: string, b: nat) returns (g1: Option<string>, m1: char, c: nat, g2: Option<string>, m2: char)
    requires b < |s|
    ensures (g1.Some? ==> Digits(g1.value)) && IsMinuteMark(m1)
    ensures (g2.Some? ==> Digits(g2.value)) && IsSecondMark(m2)
    ensures c == b + 1 + |Group(g1, m1)| && c <= |s|
    ensures WrittenAt(s, b + 1, Group(g1, m1) + Group(g2, m2))
    ensures MarkedNumber(s, b + 1, true) == (GroupNumber(g1), c)
    ensures MarkedNumber(s, c, false).0 == GroupNumber(g2)
  {
    g1, m1 := MarkedGroupOf(s, b + 1, true);
    c := b + 1 + |Group(g1, m1)|;
    g2, m2 := MarkedGroupOf(s, c, false);
    WrittenAtJoin(s, b + 1, Group(g1, m1), Group(g2, m2));
  }

  /** The match the degree pattern makes from the numbers its two groups read. */
  lemma GroupsRead(s: string, p: nat, a: nat, b: nat, c: nat, min: Option<nat>, sec: Option<nat>)
    requires p < |s| && a <= b < |s| && c <= |s|
    requires MarkedNumber(s, b + 1, true) == (min, c) && MarkedNumber(s, c, false).0 == sec
    ensures DmsGroups(s, p, a, b) == TokenMatch(s[p], RunValue(s, a, b) as real, min, sec)
  {
  }

  /** A head and two groups written one after the other make a token. */
  lemma DmsTextOf(s: string, p: nat, b: nat, gap: string, deg: string, g1: Option<string>, m1: char, g2: Option<string>, m2: char)
    returns (t: Dms, mk: Marks)
    requires b == p + 1 + |gap| + |deg| && b < |s|
    requires WrittenAt(s, p, [s[p]] + gap + deg + [s[b]])
    requires WrittenAt(s, b + 1, Group(g1, m1) + Group(g2, m2))
    requires Blank(gap) && Digits(deg) && IsDirection(s[p]) && IsDegreeMark(s[b])
    requires (g1.Some? ==> Digits(g1.value)) && IsMinuteMark(m1)
    requires (g2.Some? ==> Digits(g2.value)) && IsSecondMark(m2)
    ensures WellFormedDms(t, mk) && WrittenAt(s, p, DmsText(t, mk))
    ensures DmsMatch(t) == TokenMatch(s[p], DigitsValue(deg) as real, GroupNumber(g1), GroupNumber(g2))
  {
    t := Dms(s[p], gap, deg, g1, g2);
    mk := Marks(s[b], m1, m2);
    WrittenAtJoin(s, p, [s[p]] + gap + deg + [s[b]], Group(g1, m1) + Group(g2, m2));
  }

  /** Every degree/minute/second match, wherever it starts, is a well-formed
      token written there with some choice of marks, followed by the rest of
      the text; the match reads the groups that token was written with, so
      its value is the token's value. */
  lemma DmsAtWritten(s: string, p: nat)
    requires DmsAt(s, p).Some?
    ensures exists t: Dms, mk: Marks, rest: string ::
      && WellFormedDms(t, mk)
      && s[p..] == DmsText(t, mk) + rest
      && DmsAt(s, p).value == DmsMatch(t)
      && Decimal(DmsAt(s, p).value) == DmsValue(t)
  {
    var t, mk := DmsOf(s, p);
    WrittenAtRest(s, p, DmsText(t, mk));
    DmsValueOfMatch(t);
    var rest := s[p + |DmsText(t, mk)|..];
    assert s[p..] == DmsText(t, mk) + rest;
  }

  /** The degree pattern matches at `p` exactly when a well-formed token is
      written there, whatever follows it. */
  lemma DmsAtIff(s: string, p: nat)
    ensures DmsAt(s, p).Some? <==> exists t: Dms, mk: Marks :: WellFormedDms(t, mk) && WrittenAt(s, p, DmsText(t, mk))
  {
    if DmsAt(s, p).Some? {
      var t, mk := DmsOf(s, p);
    }
    if exists t: Dms, mk: Marks :: WellFormedDms(t, mk) && WrittenAt(s, p, DmsText(t, mk)) {
      var t: Dms, mk: Marks :| WellFormedDms(t, mk) && WrittenAt(s, p, DmsText(t, mk));
      var a := p + 1 + |t.gap|;
      var b := a + |t.deg|;
      DmsHead(s, p, t, mk, Group(t.min, mk.min) + Group(t.sec, mk.sec), a, b);
      DmsAtGroups(s, p, a, b);
    }
  }

  /** Whatever `DecimalAt` reads at `b` is digits, then optionally a point
      and more digits, read as their decimal value. */
  lemma DecimalOf(s: string, b: nat) returns (whole: string, frac: Option<string>)
    requires b <= |s| && DecimalAt(s, b).Some?
    ensures Digits(whole) && (frac.Some? ==> Digits(frac.value))
    ensures WrittenAt(s, b, whole + FracText(frac))
    ensures DecimalAt(s, b).value == (DigitsValue(whole) as real + FracValue(frac), b + |whole + FracText(frac)|)
  {
    var c := RunEnd(s, b, Digit);
    var f := if c < |s| && s[c] == '.' then RunEnd(s, c + 1, Digit) else c;
    if c + 1 < f {
      assert DecimalAt(s, b).value == (RunValue(s, b, c) as real + RunFraction(s, c + 1, f), f);
      whole, frac := FractionDecimal(s, b, c, f);
    } else {
      assert DecimalAt(s, b).value == (RunValue(s, b, c) as real, c);
      whole, frac := WholeDecimal(s, b, c);
    }
  }

  /** A number with a fraction, `s[b..c]` then a point then `s[c + 1..f]`, as written. */
  lemma FractionDecimal(s: string, b: nat, c: nat, f: nat) returns (whole: string, frac: Option<string>)
    requires b < c && c + 1 < f <= |s| && s[c] == '.'
    requires c == RunEnd(s, b, Digit) && f == RunEnd(s, c + 1, Digit)
    ensures Digits(whole) && (frac.Some? ==> Digits(frac.value))
    ensures WrittenAt(s, b, whole + FracText(frac)) && b + |whole + FracText(frac)| == f
    ensures DigitsValue(whole) as real + FracValue(frac) == RunValue(s, b, c) as real + RunFraction(s, c + 1, f)
  {
    RunValueOfSlice(s, b, c);
    RunFractionOfSlice(s, c + 1, f);
    whole := s[b..c];
    frac := Some(s[c + 1..f]);
    assert whole + FracText(frac) == s[b..f];
  }

  /** A number without a fraction, the digits `s[b..c]`, as written. */
  lemma WholeDecimal(s: string, b: nat, c: nat) returns (whole: string, frac: Option<string>)
    requires b < c <= |s| && c == RunEnd(s, b, Digit)
    ensures Digits(whole) && frac.None?
    ensures WrittenAt(s, b, whole + FracText(frac)) && b + |whole + FracText(frac)| == c
    ensures DigitsValue(whole) as real + FracValue(frac) == RunValue(s, b, c) as real
  {
    RunValueOfSlice(s, b, c);
    whole := s[b..c];
    frac := None;
    assert whole + FracText(frac) == s[b..c];
  }

  /** What a bare match is made of: leading whitespace, the letter, a gap,
      the number, and whitespace to the end. */
  lemma BareMatchParts(s: string)
    requires BareMatch(s).Some?
    ensures var a := RunEnd(s, 0, Space);
      var g := RunEnd(s, a + 1, Space);
      && a < |s| && IsDirection(s[a]) && g <= |s| && DecimalAt(s, g).Some?
      && RunEnd(s, DecimalAt(s, g).value.1, Space) == |s|
      && BareMatch(s).value == TokenMatch(s[a], DecimalAt(s, g).value.0, None, None)
  {
  }

  /** The token a bare match reads. */
  lemma BareOf(s: string) returns (t: BareNumber)
    requires BareMatch(s).Some?
    ensures WellFormedBare(t) && s == BareText(t)
    ensures BareMatch(s) == Some(BareReading(t))
  {
    BareMatchParts(s);
    var a := RunEnd(s, 0, Space);
    t := BareNumberOf(s, a, RunEnd(s, a + 1, Space));
  }

  /** The bare token read from the runs the bare pattern finds. */
  lemma BareNumberOf(s: string, a: nat, g: nat) returns (t: BareNumber)
    requires a == RunEnd(s, 0, Space) && a < |s| && IsDirection(s[a])
    requires g == RunEnd(s, a + 1, Space) && DecimalAt(s, g).Some?
    requires RunEnd(s, DecimalAt(s, g).value.1, Space) == |s|
    ensures WellFormedBare(t) && s == BareText(t)
    ensures BareReading(t) == TokenMatch(s[a], DecimalAt(s, g).value.0, None, None)
  {
    var whole, frac := DecimalOf(s, g);
    var d := g + |whole + FracText(frac)|;
    BlankRun(s, 0, a);
    BlankRun(s, a + 1, g);
    BlankRun(s, d, |s|);
    t := BareTokenOf(s, a, g, whole, frac);
  }

  /** The bare token whose parts are cut from `s` at the given positions. */
  lemma BareTokenOf(s: string, a: nat, g: nat, whole: string, frac: Option<string>) returns (t: BareNumber)
    requires a < g <= |s| && IsDirection(s[a]) && Blank(s[..a]) && Blank(s[a + 1..g])
    requires Digits(whole) && (frac.Some? ==> Digits(frac.value))
    requires WrittenAt(s, g, whole + FracText(frac)) && Blank(s[g + |whole + FracText(frac)|..])
    ensures WellFormedBare(t) && s == BareText(t)
    ensures t.dir == s[a] && t.whole == whole && t.frac == frac
  {
    t := BareNumber(s[..a], s[a], s[a + 1..g], whole, frac, s[g + |whole + FracText(frac)|..]);
    BareTextOf(s, t, g);
  }

  /** A text cut into the parts of a bare token is that token written out. */
  lemma BareTextOf(s: string, t: BareNumber, g: nat)
    requires g == |t.lead| + 1 + |t.gap| && WrittenAt(s, g, t.whole + FracText(t.frac))
    requires t.lead == s[..|t.lead|] && t.dir == s[|t.lead|] && t.gap == s[|t.lead| + 1..g]
    requires t.trail == s[g + |t.whole + FracText(t.frac)|..]
    ensures s == BareText(t)
  {
    var num := t.whole + FracText(t.frac);
    WrittenAtRest(s, g, num);
    assert s == t.lead + [t.dir] + t.gap + s[g..];
    assert num + t.trail == t.whole + (FracText(t.frac) + t.trail);
  }

  /** Every text the bare pattern accepts is a well-formed bare token:
      whitespace, a direction letter, whitespace, a decimal number,
      whitespace; the match reads that token's letter and number, so its
      value is the token's value. */
  lemma BareMatchWritten(s: string)
    requires BareMatch(s).Some?
    ensures exists t: BareNumber ::
      && WellFormedBare(t)
      && s == BareText(t)
      && BareMatch(s).value == BareReading(t)
      && Decimal(BareMatch(s).value) == BareValue(t)
  {
    var t := BareOf(s);
    assert Decimal(BareReading(t)) == BareValue(t);
  }

  /** The bare pattern accepts exactly the written bare tokens. */
  lemma BareMatchIff(s: string)
    ensures BareMatch(s).Some? <==> exists t: BareNumber :: WellFormedBare(t) && s == BareText(t)
  {
    if BareMatch(s).Some? {
      var t := BareOf(s);
    }
    if exists t: BareNumber :: WellFormedBare(t) && s == BareText(t) {
      var t: BareNumber :| WellFormedBare(t) && s == BareText(t);
      BareTextValue(t);
    }
  }
}
