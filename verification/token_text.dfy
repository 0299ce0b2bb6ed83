/** Tokens as they are written in catalogue records, and the value
    `coord_to_decimal` reads back from each written form. */
module TokenText {
  import opened Options
  import opened Chars
  import opened Coords
  import opened Token
  import opened TokenFacts

  /** `x` is written in `s` starting at position `p`. */
  predicate WrittenAt(s: string, p: nat, x: string) {
    p + |x| <= |s| && s[p..p + |x|] == x
  }

  /** No digit at `e`: a digit run that reaches `e` stops there. */
  predicate NoDigitAt(s: string, e: nat) {
    e < |s| ==> !IsDigit(s[e])
  }

  /** Text written as `u + v` has `u` where it starts and `v` right after. */
  lemma WrittenAtSplit(s: string, p: nat, u: string, v: string)
    requires WrittenAt(s, p, u + v)
    ensures WrittenAt(s, p, u) && WrittenAt(s, p + |u|, v)
  {
    var w := s[p..p + |u| + |v|];
    assert s[p..p + |u|] == w[..|u|];
    assert s[p + |u|..p + |u| + |v|] == w[|u|..];
  }

  /** `u` written at `p` and `v` right after it make `u + v` written at `p`. */
  lemma WrittenAtJoin(s: string, p: nat, u: string, v: string)
    requires WrittenAt(s, p, u) && WrittenAt(s, p + |u|, v)
    ensures WrittenAt(s, p, u + v)
  {
    assert s[p..p + |u| + |v|] == s[p..p + |u|] + s[p + |u|..p + |u| + |v|];
  }

  /** What is written at `p` followed by the rest of the text. */
  lemma WrittenAtRest(s: string, p: nat, x: string)
    requires WrittenAt(s, p, x)
    ensures s[p..] == x + s[p + |x|..]
  {
    assert s[p..] == s[p..p + |x|] + s[p + |x|..];
  }

  /** A non-empty run of decimal digits. */
  predicate Digits(ds: string) {
    |ds| > 0 && AllDigits(ds)
  }

  /** A degree/minute/second token: direction letter, whitespace gap, degree
      digits, then optional minute digits and optional second digits. */
  datatype Dms = Dms(dir: char, gap: string, deg: string, min: Option<string>, sec: Option<string>)

  /** Which mark of each class a written token uses. */
  datatype Marks = Marks(deg: char, min: char, sec: char)

  predicate WellFormedDms(t: Dms, mk: Marks) {
    && IsDirection(t.dir)
    && Blank(t.gap)
    && Digits(t.deg)
    && (t.min.Some? ==> Digits(t.min.value))
    && (t.sec.Some? ==> Digits(t.sec.value))
    && IsDegreeMark(mk.deg) && IsMinuteMark(mk.min) && IsSecondMark(mk.sec)
  }

  function Group(g: Option<string>, mark: char): string {
    if g.Some? then g.value + [mark] else ""
  }

  function DmsText(t: Dms, mk: Marks): string {
    [t.dir] + t.gap + t.deg + [mk.deg] + (Group(t.min, mk.min) + Group(t.sec, mk.sec))
  }

  /** The number a written group holds, if the group is written. */
  function GroupNumber(g: Option<string>): Option<nat>
  {
    if g.Some? then Some(DigitsValue(g.value)) else None
  }

  function GroupValue(g: Option<string>): nat
    requires g.Some? ==> AllDigits(g.value)
  {
    if g.Some? then DigitsValue(g.value) else 0
  }

  /** What a degree/minute/second token denotes: degrees plus minutes/60
      plus seconds/3600, negative towards west and south. */
  function DmsValue(t: Dms): real
    requires AllDigits(t.deg)
    requires t.min.Some? ==> AllDigits(t.min.value)
    requires t.sec.Some? ==> AllDigits(t.sec.value)
  {
    var v := DigitsValue(t.deg) as real + GroupValue(t.min) as real / 60.0 + GroupValue(t.sec) as real / 3600.0;
    if t.dir == 'W' || t.dir == 'S' then -v else v
  }

  /** The named groups the degree pattern reads from a written token. */
  function DmsMatch(t: Dms): TokenMatch {
    TokenMatch(t.dir, DigitsValue(t.deg) as real, GroupNumber(t.min), GroupNumber(t.sec))
  }

  /** A digit run followed by its mark, found at `i`, is read as that group. */
  lemma MarkedGroupPresent(s: string, i: nat, e: nat, ds: string, minutes: bool)
    requires e == i + |ds| && e < |s| && s[i..e] == ds && Digits(ds)
    requires if minutes then IsMinuteMark(s[e]) else IsSecondMark(s[e])
    ensures MarkedNumber(s, i, minutes) == (Some(DigitsValue(ds)), e + 1)
  {
    MarkNotDigit(s[e], minutes);
    DigitRunAt(s, i, e, ds);
    MarkedFromRun(s, i, e, minutes);
  }

  lemma MarkNotDigit(mark: char, minutes: bool)
    requires if minutes then IsMinuteMark(mark) else IsSecondMark(mark)
    ensures !IsDigit(mark)
  {
  }

  /** The group read from a digit run ending in the right mark. */
  lemma MarkedFromRun(s: string, i: nat, e: nat, minutes: bool)
    requires i < e < |s| && RunEnd(s, i, Digit) == e
    requires if minutes then IsMinuteMark(s[e]) else IsSecondMark(s[e])
    ensures MarkedNumber(s, i, minutes) == (Some(RunValue(s, i, e)), e + 1)
  {
  }

  /** A digit run followed by a seconds mark is not a minutes group. */
  lemma MinutesGroupAbsent(s: string, i: nat, ds: string, mark: char)
    requires i + |ds| < |s| && s[i..i + |ds|] == ds && Digits(ds) && s[i + |ds|] == mark
    requires IsSecondMark(mark)
    ensures MarkedNumber(s, i, true) == (None, i)
  {
    forall k | i <= k < i + |ds| ensures IsDigit(s[k]) {
      assert s[k] == ds[k - i];
    }
    RunEndUnique(s, i, Digit, i + |ds|);
  }

  /** The direction, gap, degree digits and degree mark of a token written
      at `p` are read as the pattern's first three groups. */
  lemma DmsHead(s: string, p: nat, t: Dms, mk: Marks, rest: string, a: nat, b: nat)
    requires WellFormedDms(t, mk)
    requires WrittenAt(s, p, [t.dir] + t.gap + t.deg + [mk.deg] + rest)
    requires a == p + 1 + |t.gap| && b == a + |t.deg|
    ensures b < |s| && s[p] == t.dir && s[b] == mk.deg
    ensures RunEnd(s, p + 1, Space) == a
    ensures RunEnd(s, a, Digit) == b
    ensures RunValue(s, a, b) == DigitsValue(t.deg)
    ensures WrittenAt(s, b + 1, rest)
  {
    WrittenAtSplit(s, p, [t.dir] + t.gap + t.deg + [mk.deg], rest);
    DmsHeadChars(s, p, t, mk, a, b);
    RunEndUnique(s, p + 1, Space, a);
    RunEndUnique(s, a, Digit, b);
    assert s[a..b] == t.deg;
    RunValueOfSlice(s, a, b);
  }

  /** Character by character, the head of a token written at `p`. */
  lemma DmsHeadChars(s: string, p: nat, t: Dms, mk: Marks, a: nat, b: nat)
    requires WellFormedDms(t, mk)
    requires WrittenAt(s, p, [t.dir] + t.gap + t.deg + [mk.deg])
    requires a == p + 1 + |t.gap| && b == a + |t.deg|
    ensures b < |s| && s[p] == t.dir && s[b] == mk.deg && !IsSpace(s[a])
    ensures forall k :: p + 1 <= k < a ==> IsSpace(s[k])
    ensures forall k :: a <= k < b ==> s[k] == t.deg[k - a] && IsDigit(s[k])
  {
    var w := s[p..b + 1];
    assert w == [t.dir] + t.gap + t.deg + [mk.deg];
    forall k | p + 1 <= k < a ensures IsSpace(s[k]) {
      assert s[k] == w[k - p] == t.gap[k - p - 1];
    }
    forall k | a <= k < b ensures s[k] == t.deg[k - a] && IsDigit(s[k]) {
      assert s[k] == w[k - p];
    }
    assert s[b] == w[b - p];
  }

  /** The optional minutes group of a written token is read back as written. */
  lemma MinutesGroup(s: string, i: nat, e: nat, t: Dms, mk: Marks)
    requires WellFormedDms(t, mk)
    requires WrittenAt(s, i, Group(t.min, mk.min) + Group(t.sec, mk.sec))
    requires e == i + |Group(t.min, mk.min) + Group(t.sec, mk.sec)| && NoDigitAt(s, e)
    ensures MarkedNumber(s, i, true) == (GroupNumber(t.min), i + |Group(t.min, mk.min)|)
  {
    WrittenAtSplit(s, i, Group(t.min, mk.min), Group(t.sec, mk.sec));
    if t.min.Some? {
      var m := t.min.value;
      WrittenAtSplit(s, i, m, [mk.min]);
      assert s[i + |m|] == mk.min;
      MarkedGroupPresent(s, i, i + |m|, m, true);
    } else if t.sec.Some? {
      var sc := t.sec.value;
      WrittenAtSplit(s, i, sc, [mk.sec]);
      assert s[i + |sc|] == mk.sec;
      MinutesGroupAbsent(s, i, sc, mk.sec);
    } else {
      RunEndUnique(s, i, Digit, i);
    }
  }

  /** The optional seconds group of a written token is read back as written. */
  lemma SecondsGroup(s: string, c: nat, e: nat, t: Dms, mk: Marks)
    requires WellFormedDms(t, mk)
    requires WrittenAt(s, c, Group(t.sec, mk.sec))
    requires e == c + |Group(t.sec, mk.sec)| && NoDigitAt(s, e)
    ensures MarkedNumber(s, c, false) == (GroupNumber(t.sec), e)
  {
    if t.sec.Some? {
      var sc := t.sec.value;
      WrittenAtSplit(s, c, sc, [mk.sec]);
      assert s[c + |sc|] == mk.sec;
      MarkedGroupPresent(s, c, c + |sc|, sc, false);
    } else {
      RunEndUnique(s, c, Digit, c);
    }
  }

  /** The minutes and seconds groups after the degree mark read back as written. */
  lemma DmsTextGroups(s: string, i: nat, e: nat, t: Dms, mk: Marks, c: nat)
    requires WellFormedDms(t, mk)
    requires WrittenAt(s, i, Group(t.min, mk.min) + Group(t.sec, mk.sec))
    requires e == i + |Group(t.min, mk.min) + Group(t.sec, mk.sec)| && NoDigitAt(s, e)
    requires c == i + |Group(t.min, mk.min)|
    ensures MarkedNumber(s, i, true) == (GroupNumber(t.min), c)
    ensures c <= |s| && MarkedNumber(s, c, false) == (GroupNumber(t.sec), e)
  {
    MinutesGroup(s, i, e, t, mk);
    WrittenAtSplit(s, i, Group(t.min, mk.min), Group(t.sec, mk.sec));
    SecondsGroup(s, c, e, t, mk);
  }

  /** Where the parts of a degree/minute/second token written at `p` sit,
      and what they read as. */
  predicate DmsLaidOut(s: string, p: nat, t: Dms, a: nat, b: nat, c: nat) {
    p < |s| && IsDirection(s[p]) && s[p] == t.dir
    && p + 1 <= a < b < |s| && IsDegreeMark(s[b])
    && RunEnd(s, p + 1, Space) == a && RunEnd(s, a, Digit) == b
    && RunValue(s, a, b) == DigitsValue(t.deg)
    && MarkedNumber(s, b + 1, true) == (GroupNumber(t.min), c)
    && c <= |s| && MarkedNumber(s, c, false).0 == GroupNumber(t.sec)
  }

  /** A written token lays out its parts as `DmsLaidOut` says. */
  lemma DmsTextLayout(s: string, p: nat, t: Dms, mk: Marks, a: nat, b: nat, c: nat)
    requires WellFormedDms(t, mk)
    requires WrittenAt(s, p, DmsText(t, mk)) && NoDigitAt(s, p + |DmsText(t, mk)|)
    requires a == p + 1 + |t.gap| && b == a + |t.deg| && c == b + 1 + |Group(t.min, mk.min)|
    ensures DmsLaidOut(s, p, t, a, b, c)
  {
    var rest := Group(t.min, mk.min) + Group(t.sec, mk.sec);
    DmsHead(s, p, t, mk, rest, a, b);
    DmsTextGroups(s, b + 1, p + |DmsText(t, mk)|, t, mk, c);
  }

  /** A degree/minute/second token written at any position, and followed by
      the end of the text or by something other than a digit, is matched
      there: the match holds its letter, its degrees and exactly the minutes
      and seconds groups it was written with. */
  lemma DmsAtText(s: string, p: nat, t: Dms, mk: Marks)
    requires WellFormedDms(t, mk)
    requires WrittenAt(s, p, DmsText(t, mk)) && NoDigitAt(s, p + |DmsText(t, mk)|)
    ensures DmsAt(s, p) == Some(DmsMatch(t))
  {
    var a := p + 1 + |t.gap|;
    var b := a + |t.deg|;
    var c := b + 1 + |Group(t.min, mk.min)|;
    DmsTextLayout(s, p, t, mk, a, b, c);
    DmsAtIs(s, p, a, b, DigitsValue(t.deg), GroupNumber(t.min), GroupNumber(t.sec));
  }

  /** The written groups of a match give the token's value. */
  lemma DmsValueOfMatch(t: Dms)
    requires AllDigits(t.deg)
    requires t.min.Some? ==> AllDigits(t.min.value)
    requires t.sec.Some? ==> AllDigits(t.sec.value)
    ensures Decimal(DmsMatch(t)) == DmsValue(t)
  {
    var v := DigitsValue(t.deg) as real + GroupValue(t.min) as real / 60.0 + GroupValue(t.sec) as real / 3600.0;
    assert GroupNumber(t.min).GetOr(0) == GroupValue(t.min);
    assert GroupNumber(t.sec).GetOr(0) == GroupValue(t.sec);
    assert Decimal(DmsMatch(t)) == Signed(t.dir, v);
  }

  /** A written degree/minute/second token inside a longer text is what
      `coord_to_decimal` reads, as long as no degree match starts before it
      and no digit follows it: text around a piece, such as the spaces left
      by splitting at dashes, does not change its value. */
  lemma DmsInText(pre: string, t: Dms, mk: Marks, post: string)
    requires WellFormedDms(t, mk)
    requires FindDms(pre, 0).None?
    requires post == [] || !IsDigit(post[0])
    ensures CoordToDecimal(pre + DmsText(t, mk) + post) == Fin(DmsValue(t))
  {
    var x := DmsText(t, mk);
    var s := pre + x + post;
    assert s == pre + (x + post);
    assert s[|pre|..|pre| + |x|] == x;
    assert NoDigitAt(s, |pre| + |x|) by {
      if |pre| + |x| < |s| {
        assert s[|pre| + |x|] == post[0];
      }
    }
    NoDmsBefore(pre, x + post);
    DmsReadAt(s, |pre|, t, mk);
  }

  /** The value read from text whose first degree match is a written token. */
  lemma DmsReadAt(s: string, p: nat, t: Dms, mk: Marks)
    requires WellFormedDms(t, mk) && WrittenAt(s, p, DmsText(t, mk)) && NoDigitAt(s, p + |DmsText(t, mk)|)
    requires forall q :: 0 <= q < p ==> DmsAt(s, q).None?
    ensures CoordToDecimal(s) == Fin(DmsValue(t))
  {
    DmsAtText(s, p, t, mk);
    FirstDms(s, p);
    DmsValueOfMatch(t);
  }

  /** Degree/minute/second round trip: a token written with any choice of
      marks and any whitespace gap, with or without its minutes and seconds
      groups, reads back as degrees + minutes/60 + seconds/3600, negated for
      W and S. */
  lemma DmsTextValue(t: Dms, mk: Marks)
    requires WellFormedDms(t, mk)
    ensures CoordToDecimal(DmsText(t, mk)) == Fin(DmsValue(t))
  {
    DmsInText([], t, mk, []);
    assert [] + DmsText(t, mk) + [] == DmsText(t, mk);
  }

  /** A bare decimal token: leading whitespace, a direction letter, a
      whitespace gap, integer digits, optional fraction digits after a
      point, trailing whitespace. */
  datatype BareNumber = BareNumber(lead: string, dir: char, gap: string, whole: string, frac: Option<string>, trail: string)

  predicate WellFormedBare(t: BareNumber) {
    && Blank(t.lead) && IsDirection(t.dir) && Blank(t.gap)
    && Digits(t.whole) && (t.frac.Some? ==> Digits(t.frac.value))
    && Blank(t.trail)
  }

  function FracText(f: Option<string>): string {
    if f.Some? then "." + f.value else ""
  }

  /** The fractional part a written number holds, zero when it has none. */
  function FracValue(f: Option<string>): real {
    if f.Some? then FractionValue(f.value) else 0.0
  }

  function BareText(t: BareNumber): string {
    t.lead + [t.dir] + t.gap + (t.whole + (FracText(t.frac) + t.trail))
  }

  /** What a bare decimal token denotes: its number, negative towards west and south. */
  function BareValue(t: BareNumber): real {
    var v := DigitsValue(t.whole) as real + FracValue(t.frac);
    if t.dir == 'W' || t.dir == 'S' then -v else v
  }

  /** The named groups the bare pattern reads from a written token. */
  function BareReading(t: BareNumber): TokenMatch {
    TokenMatch(t.dir, DigitsValue(t.whole) as real + FracValue(t.frac), None, None)
  }

  /** Leading whitespace, direction letter and gap of a bare token. */
  lemma BareHead(s: string, t: BareNumber, num: string, a: nat, b: nat)
    requires WellFormedBare(t) && |num| > 0 && !IsSpace(num[0])
    requires s == t.lead + [t.dir] + t.gap + num
    requires a == |t.lead| && b == a + 1 + |t.gap|
    ensures a < |s| && s[a] == t.dir && b <= |s|
    ensures RunEnd(s, 0, Space) == a && RunEnd(s, a + 1, Space) == b
    ensures s[b..] == num
  {
    forall k | 0 <= k < a ensures IsSpace(s[k]) {
      assert s[k] == t.lead[k];
    }
    assert s[a] == t.dir;
    RunEndUnique(s, 0, Space, a);
    forall k | a + 1 <= k < b ensures IsSpace(s[k]) {
      assert s[k] == t.gap[k - a - 1];
    }
    assert s[b] == num[0];
    RunEndUnique(s, a + 1, Space, b);
    assert s[b..] == num;
  }

  /** A digit run written at `i` and ended by a non-digit is read as those digits. */
  lemma DigitRunAt(s: string, i: nat, e: nat, ds: string)
    requires e == i + |ds| && e <= |s| && s[i..e] == ds && AllDigits(ds)
    requires e == |s| || !IsDigit(s[e])
    ensures RunEnd(s, i, Digit) == e
    ensures RunValue(s, i, e) == DigitsValue(ds)
  {
    forall k | i <= k < e ensures IsDigit(s[k]) {
      assert s[k] == ds[k - i];
    }
    RunEndUnique(s, i, Digit, e);
    RunValueOfSlice(s, i, e);
  }

  /** A digit run written after a point and ended by a non-digit is read as that fraction. */
  lemma FractionRunAt(s: string, i: nat, e: nat, ds: string)
    requires e == i + |ds| && e <= |s| && s[i..e] == ds && AllDigits(ds)
    requires e == |s| || !IsDigit(s[e])
    ensures RunEnd(s, i, Digit) == e
    ensures RunFraction(s, i, e) == FractionValue(ds)
  {
    forall k | i <= k < e ensures IsDigit(s[k]) {
      assert s[k] == ds[k - i];
    }
    RunEndUnique(s, i, Digit, e);
    RunFractionOfSlice(s, i, e);
  }

  /** `\d+[.]\d+` assembled from its two digit runs. */
  lemma DecimalFromRuns(s: string, b: nat, c: nat, f: nat, whole: nat, frac: real)
    requires b < c < |s| && s[c] == '.' && c + 1 < f <= |s|
    requires RunEnd(s, b, Digit) == c && RunEnd(s, c + 1, Digit) == f
    requires RunValue(s, b, c) == whole && RunFraction(s, c + 1, f) == frac
    ensures DecimalAt(s, b) == Some((whole as real + frac, f))
  {
  }

  /** Where the digits, point and fraction of a bare token sit. */
  lemma FractionLayout(s: string, b: nat, c: nat, f: nat, whole: string, fr: string, trail: string)
    requires Blank(trail)
    requires c == b + |whole| && f == c + 1 + |fr|
    requires b <= |s| && s[b..] == whole + ("." + (fr + trail))
    ensures f <= |s| && s[b..c] == whole && s[c] == '.' && s[c + 1..f] == fr
    ensures f < |s| ==> IsSpace(s[f])
  {
    var rest := fr + trail;
    assert s[b..c] == whole;
    assert s[c] == '.';
    assert s[c + 1..] == rest by {
      assert s[c + 1..] == s[b..][|whole| + 1..];
    }
    assert s[c + 1..f] == fr by {
      assert s[c + 1..f] == rest[..|fr|];
    }
    if f < |s| {
      assert s[f] == rest[|fr|] == trail[0];
    }
  }

  /** The number of a bare token that has a fractional part. */
  lemma DecimalWithFraction(s: string, b: nat, c: nat, f: nat, whole: string, fr: string)
    requires Digits(whole) && Digits(fr)
    requires c == b + |whole| && f == c + 1 + |fr| && f <= |s|
    requires s[b..c] == whole && s[c] == '.' && s[c + 1..f] == fr
    requires f < |s| ==> IsSpace(s[f])
    ensures DecimalAt(s, b) == Some((DigitsValue(whole) as real + FractionValue(fr), f))
  {
    DigitRunAt(s, b, c, whole);
    FractionRunAt(s, c + 1, f, fr);
    DecimalFromRuns(s, b, c, f, DigitsValue(whole), FractionValue(fr));
  }

  /** Where the digits of a bare token without a fractional part sit. */
  lemma WholeLayout(s: string, b: nat, c: nat, whole: string, trail: string)
    requires Blank(trail) && c == b + |whole|
    requires b <= |s| && s[b..] == whole + trail
    ensures c <= |s| && s[b..c] == whole && (c < |s| ==> IsSpace(s[c]))
  {
    assert s[b..c] == whole;
    if c < |s| {
      assert s[c] == trail[0];
    }
  }

  /** The number of a bare token without a fractional part. */
  lemma DecimalWhole(s: string, b: nat, c: nat, whole: string)
    requires Digits(whole) && c == b + |whole| && c <= |s|
    requires s[b..c] == whole && (c < |s| ==> IsSpace(s[c]))
    ensures DecimalAt(s, b) == Some((DigitsValue(whole) as real, c))
  {
    DigitRunAt(s, b, c, whole);
    DecimalFromRun(s, b, c, DigitsValue(whole));
  }

  /** `\d+` with no point after it. */
  lemma DecimalFromRun(s: string, b: nat, c: nat, whole: nat)
    requires b < c <= |s| && (c == |s| || s[c] != '.')
    requires RunEnd(s, b, Digit) == c && RunValue(s, b, c) == whole
    ensures DecimalAt(s, b) == Some((whole as real, c))
  {
  }

  /** The whole-token bare pattern assembled from its parts. */
  lemma BareFromParts(s: string, a: nat, b: nat, deg: real, d: nat)
    requires a < |s| && IsDirection(s[a]) && b <= |s|
    requires RunEnd(s, 0, Space) == a && RunEnd(s, a + 1, Space) == b
    requires DecimalAt(s, b) == Some((deg, d)) && RunEnd(s, d, Space) == |s|
    ensures BareMatch(s) == Some(TokenMatch(s[a], deg, None, None))
    ensures CoordToDecimal(s) == Fin(Signed(s[a], deg))
  {
    BareOnly(s);
  }

  /** Where the parts of a written bare token sit, and what they read as. */
  lemma BareTextParts(s: string, t: BareNumber, a: nat, b: nat, d: nat, deg: real)
    requires WellFormedBare(t) && s == BareText(t)
    requires a == |t.lead| && b == a + 1 + |t.gap| && d == b + |t.whole + FracText(t.frac)|
    requires deg == DigitsValue(t.whole) as real + FracValue(t.frac)
    ensures a < |s| && s[a] == t.dir && b <= |s|
    ensures RunEnd(s, 0, Space) == a && RunEnd(s, a + 1, Space) == b
    ensures DecimalAt(s, b) == Some((deg, d)) && RunEnd(s, d, Space) == |s|
  {
    var num := t.whole + (FracText(t.frac) + t.trail);
    BareHead(s, t, num, a, b);
    BareNumberAt(s, b, t.whole, t.frac, t.trail, deg, d);
  }

  /** The decimal number of a bare token, read where its digits start. */
  lemma BareNumberAt(s: string, b: nat, whole: string, frac: Option<string>, trail: string, deg: real, d: nat)
    requires Digits(whole) && (frac.Some? ==> Digits(frac.value)) && Blank(trail)
    requires b <= |s| && s[b..] == whole + (FracText(frac) + trail)
    requires d == b + |whole + FracText(frac)|
    requires deg == DigitsValue(whole) as real + FracValue(frac)
    ensures DecimalAt(s, b) == Some((deg, d))
    ensures RunEnd(s, d, Space) == |s|
  {
    if frac.Some? {
      BareNumberWithFraction(s, b, whole, frac, trail, deg, d);
    } else {
      BareNumberWhole(s, b, whole, frac, trail, deg, d);
    }
    BareTrailAt(s, b, whole, frac, trail);
  }

  /** Only whitespace follows the number of a bare token. */
  lemma BareTrailAt(s: string, b: nat, whole: string, frac: Option<string>, trail: string)
    requires Blank(trail) && b <= |s| && s[b..] == whole + (FracText(frac) + trail)
    ensures RunEnd(s, b + |whole + FracText(frac)|, Space) == |s|
  {
    assert s[b..] == (whole + FracText(frac)) + trail;
    TrailingSpaces(s, b, whole + FracText(frac), trail);
  }

  lemma BareNumberWithFraction(s: string, b: nat, whole: string, frac: Option<string>, trail: string, deg: real, d: nat)
    requires frac.Some? && Digits(whole) && Digits(frac.value) && Blank(trail)
    requires b <= |s| && s[b..] == whole + (FracText(frac) + trail)
    requires d == b + |whole + FracText(frac)|
    requires deg == DigitsValue(whole) as real + FractionValue(frac.value)
    ensures DecimalAt(s, b) == Some((deg, d))
  {
    assert FracText(frac) == "." + frac.value;
    assert FracText(frac) + trail == "." + (frac.value + trail);
    BareFractionAt(s, b, b + |whole|, d, whole, frac.value, trail);
  }

  lemma BareNumberWhole(s: string, b: nat, whole: string, frac: Option<string>, trail: string, deg: real, d: nat)
    requires frac.None? && Digits(whole) && Blank(trail)
    requires b <= |s| && s[b..] == whole + (FracText(frac) + trail)
    requires d == b + |whole + FracText(frac)|
    requires deg == DigitsValue(whole) as real
    ensures DecimalAt(s, b) == Some((deg, d))
  {
    assert FracText(frac) == "";
    assert whole + (FracText(frac) + trail) == whole + trail;
    WholeLayout(s, b, b + |whole|, whole, trail);
    DecimalWhole(s, b, b + |whole|, whole);
  }

  /** Whitespace that closes a token runs to its end. */
  lemma TrailingSpaces(s: string, b: nat, head: string, trail: string)
    requires Blank(trail)
    requires b <= |s| && s[b..] == head + trail
    ensures RunEnd(s, b + |head|, Space) == |s|
  {
    assert s[b + |head|..] == trail by {
      assert s[b..][|head|..] == trail;
    }
    RunEndUnique(s, b + |head|, Space, |s|);
  }

  /** The decimal number of a bare token with a fractional part. */
  lemma BareFractionAt(s: string, b: nat, c: nat, f: nat, whole: string, fr: string, trail: string)
    requires Digits(whole) && Digits(fr) && Blank(trail) && c == b + |whole| && f == c + 1 + |fr|
    requires b <= |s| && s[b..] == whole + ("." + (fr + trail))
    ensures DecimalAt(s, b) == Some((DigitsValue(whole) as real + FractionValue(fr), f))
  {
    FractionLayout(s, b, c, f, whole, fr, trail);
    DecimalWithFraction(s, b, c, f, whole, fr);
  }

  /** Bare decimal round trip: a direction letter and a decimal number, with
      any whitespace around and between them, is matched by the bare
      pattern with its letter and number, and reads back as that number,
      negated for W and S. */
  lemma BareTextValue(t: BareNumber)
    requires WellFormedBare(t)
    ensures BareMatch(BareText(t)) == Some(BareReading(t))
    ensures CoordToDecimal(BareText(t)) == Fin(BareValue(t))
  {
    var s := BareText(t);
    var a := |t.lead|;
    var b := a + 1 + |t.gap|;
    var d := b + |t.whole + FracText(t.frac)|;
    var deg := DigitsValue(t.whole) as real + FracValue(t.frac);
    BareTextParts(s, t, a, b, d, deg);
    BareFromParts(s, a, b, deg, d);
    assert BareReading(t) == TokenMatch(s[a], deg, None, None);
  }
}
