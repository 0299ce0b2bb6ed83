/** Marker equivalence: the degree, minute and second marks of one class
    are interchangeable in a coordinate token. */
module Marks {
  import opened Chars
  import opened Token
  import opened TokenFacts

  /** Each degree, minute and second mark replaced by the first of its class. */
  function Canon(c: char): (d: char)
    ensures IsDegreeMark(c) <==> d == '\U{00B0}'
    ensures IsMinuteMark(c) <==> d == '\U{02B9}'
    ensures IsSecondMark(c) <==> d == '\U{02BA}'
    ensures !IsDegreeMark(c) && !IsMinuteMark(c) && !IsSecondMark(c) ==> d == c
  {
    if IsDegreeMark(c) then '\U{00B0}'
    else if IsMinuteMark(c) then '\U{02B9}'
    else if IsSecondMark(c) then '\U{02BA}'
    else c
  }

  /** Two tokens that differ at most in which mark of a class they use. */
  predicate SameUpToMarks(s: string, t: string) {
    |s| == |t| && forall k {:trigger Canon(s[k])} :: 0 <= k < |s| ==> Canon(s[k]) == Canon(t[k])
  }

  lemma CanonAgree(c: char, d: char)
    requires Canon(c) == Canon(d)
    ensures IsSpace(c) == IsSpace(d) && IsDigit(c) == IsDigit(d)
    ensures IsDegreeMark(c) == IsDegreeMark(d)
    ensures IsMinuteMark(c) == IsMinuteMark(d) && IsSecondMark(c) == IsSecondMark(d)
    ensures IsDirection(c) || IsDigit(c) || c == '.' ==> c == d
  {
  }

  lemma SpacesAgree(s: string, t: string)
    requires SameUpToMarks(s, t)
    ensures forall k :: 0 <= k < |s| ==> IsSpace(s[k]) == IsSpace(t[k])
  {
    forall k | 0 <= k < |s| ensures IsSpace(s[k]) == IsSpace(t[k]) {
      CanonAgree(s[k], t[k]);
    }
  }

  lemma DigitsAgree(s: string, t: string)
    requires SameUpToMarks(s, t)
    ensures forall k :: 0 <= k < |s| ==> IsDigit(s[k]) == IsDigit(t[k])
  {
    forall k | 0 <= k < |s| ensures IsDigit(s[k]) == IsDigit(t[k]) {
      CanonAgree(s[k], t[k]);
    }
  }

  lemma SameUpToMarksRunValue(s: string, t: string, i: nat, e: nat)
    requires SameUpToMarks(s, t) && i <= e <= |s|
    requires forall k :: i <= k < e ==> IsDigit(s[k])
    ensures forall k :: i <= k < e ==> IsDigit(t[k])
    ensures RunValue(s, i, e) == RunValue(t, i, e)
    ensures RunFraction(s, i, e) == RunFraction(t, i, e)
  {
    forall k | i <= k < e ensures t[k] == s[k] {
      CanonAgree(s[k], t[k]);
    }
    assert s[i..e] == t[i..e];
    RunValueOfSlice(s, i, e);
    RunValueOfSlice(t, i, e);
    RunFractionOfSlice(s, i, e);
    RunFractionOfSlice(t, i, e);
  }

  lemma SameUpToMarksMarked(s: string, t: string, i: nat, minutes: bool)
    requires SameUpToMarks(s, t) && i <= |s|
    ensures MarkedNumber(s, i, minutes) == MarkedNumber(t, i, minutes)
  {
    DigitsAgree(s, t);
    RunEndAgree(s, t, i, Digit);
    var e := RunEnd(s, i, Digit);
    if i < e < |s| {
      CanonAgree(s[e], t[e]);
      SameUpToMarksRunValue(s, t, i, e);
    }
  }

  lemma SameUpToMarksDms(s: string, t: string, p: nat)
    requires SameUpToMarks(s, t)
    ensures DmsAt(s, p) == DmsAt(t, p)
  {
    if p < |s| && IsDirection(s[p]) {
      SameUpToMarksDmsLetter(s, t, p);
    } else {
      if p < |s| {
        CanonAgree(s[p], t[p]);
      }
      DmsAtNoLetter(s, p);
      DmsAtNoLetter(t, p);
    }
  }

  lemma SameUpToMarksDmsLetter(s: string, t: string, p: nat)
    requires SameUpToMarks(s, t) && p < |s| && IsDirection(s[p])
    ensures DmsAt(s, p) == DmsAt(t, p)
  {
    var a, b := DmsRunsAgree(s, t, p);
    if a < b < |s| && IsDegreeMark(s[b]) {
      SameUpToMarksGroups(s, t, p, a, b);
      DmsAtGroups(s, p, a, b);
      DmsAtGroups(t, p, a, b);
    } else {
      DmsAtNone(s, p, a, b);
      DmsAtNone(t, p, a, b);
    }
  }

  /** The groups after a degree mark read the same in both tokens. */
  lemma SameUpToMarksGroups(s: string, t: string, p: nat, a: nat, b: nat)
    requires SameUpToMarks(s, t) && p < |s| && s[p] == t[p] && a <= b < |s|
    requires forall k :: a <= k < b ==> IsDigit(s[k])
    ensures DmsGroups(s, p, a, b) == DmsGroups(t, p, a, b)
  {
    SameUpToMarksRunValue(s, t, a, b);
    SameUpToMarksMarked(s, t, b + 1, true);
    var m := MarkedNumber(s, b + 1, true);
    SameUpToMarksMarked(s, t, m.1, false);
    DmsGroupsAgree(s, t, p, a, b);
  }

  /** `DmsGroups` depends only on the letter, the degree value and what the
      two groups read. */
  lemma DmsGroupsAgree(s: string, t: string, p: nat, a: nat, b: nat)
    requires |s| == |t| && p < |s| && s[p] == t[p] && a <= b < |s|
    requires RunValue(s, a, b) == RunValue(t, a, b)
    requires MarkedNumber(s, b + 1, true) == MarkedNumber(t, b + 1, true)
    requires MarkedNumber(s, MarkedNumber(s, b + 1, true).1, false)
      == MarkedNumber(t, MarkedNumber(s, b + 1, true).1, false)
    ensures DmsGroups(s, p, a, b) == DmsGroups(t, p, a, b)
  {
  }

  /** The runs after a direction letter end at the same places in both tokens. */
  lemma DmsRunsAgree(s: string, t: string, p: nat) returns (a: nat, b: nat)
    requires SameUpToMarks(s, t) && p < |s| && IsDirection(s[p])
    ensures s[p] == t[p] && a <= b <= |s|
    ensures RunEnd(s, p + 1, Space) == a && RunEnd(t, p + 1, Space) == a
    ensures RunEnd(s, a, Digit) == b && RunEnd(t, a, Digit) == b
    ensures b < |s| ==> IsDegreeMark(s[b]) == IsDegreeMark(t[b])
  {
    CanonAgree(s[p], t[p]);
    SpacesAgree(s, t);
    DigitsAgree(s, t);
    a := RunEnd(s, p + 1, Space);
    RunEndAgree(s, t, p + 1, Space);
    b := RunEnd(s, a, Digit);
    RunEndAgree(s, t, a, Digit);
    if b < |s| {
      CanonAgree(s[b], t[b]);
    }
  }

  /** `DecimalAt` depends only on where the runs end and what they read. */
  lemma DecimalAtAgree(s: string, t: string, b: nat, c: nat, f: nat)
    requires |s| == |t| && b < c <= |s|
    requires RunEnd(s, b, Digit) == c && RunEnd(t, b, Digit) == c
    requires RunValue(s, b, c) == RunValue(t, b, c)
    requires f == if c < |s| && s[c] == '.' then RunEnd(s, c + 1, Digit) else c
    requires f == if c < |t| && t[c] == '.' then RunEnd(t, c + 1, Digit) else c
    requires c + 1 < f ==> RunFraction(s, c + 1, f) == RunFraction(t, c + 1, f)
    ensures DecimalAt(s, b) == DecimalAt(t, b)
  {
  }

  lemma SameUpToMarksDecimal(s: string, t: string, b: nat)
    requires SameUpToMarks(s, t) && b <= |s|
    ensures DecimalAt(s, b) == DecimalAt(t, b)
  {
    DigitsAgree(s, t);
    RunEndAgree(s, t, b, Digit);
    var c := RunEnd(s, b, Digit);
    if b < c {
      SameUpToMarksRunValue(s, t, b, c);
      if c < |s| {
        CanonAgree(s[c], t[c]);
      }
      if c < |s| && s[c] == '.' {
        RunEndAgree(s, t, c + 1, Digit);
        var f := RunEnd(s, c + 1, Digit);
        SameUpToMarksRunValue(s, t, c + 1, f);
        DecimalAtAgree(s, t, b, c, f);
      } else {
        DecimalAtAgree(s, t, b, c, c);
      }
    }
  }

  lemma SameUpToMarksBare(s: string, t: string)
    requires SameUpToMarks(s, t)
    ensures BareMatch(s) == BareMatch(t)
  {
    SpacesAgree(s, t);
    var a := RunEnd(s, 0, Space);
    RunEndAgree(s, t, 0, Space);
    if a < |s| {
      CanonAgree(s[a], t[a]);
    }
    if a < |s| && IsDirection(s[a]) {
      var b := RunEnd(s, a + 1, Space);
      RunEndAgree(s, t, a + 1, Space);
      SameUpToMarksDecimal(s, t, b);
      if DecimalAt(s, b).Some? {
        RunEndAgree(s, t, DecimalAt(s, b).value.1, Space);
      }
    }
  }

  /** Marker equivalence: `°`, `⁰` and `º` are interchangeable, as are `ʹ`
      and `'`, and `ʺ` and `"`; swapping any of them anywhere in a token never
      changes its value. */
  lemma MarkerSwap(s: string, t: string)
    requires SameUpToMarks(s, t)
    ensures CoordToDecimal(s) == CoordToDecimal(t)
  {
    forall q: nat ensures DmsAt(s, q) == DmsAt(t, q) {
      SameUpToMarksDms(s, t, q);
    }
    FindDmsAgree(s, t);
    SameUpToMarksBare(s, t);
  }

  /** The leftmost degree match depends only on where degree matches are. */
  lemma FindDmsAgree(s: string, t: string)
    requires |s| == |t| && forall q: nat :: DmsAt(s, q) == DmsAt(t, q)
    ensures FindDms(s, 0) == FindDms(t, 0)
  {
    var r := FindDms(s, 0);
    if r.Some? {
      assert DmsAt(t, r.value).Some?;
    }
  }
}
