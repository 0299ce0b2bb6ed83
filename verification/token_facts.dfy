/** Facts about the two token patterns: how a digit run read in place
    relates to its digits, what a degree match reads, and why searching
    for the degree pattern first gives the engine's answer. */
module TokenFacts {
  import opened Options
  import opened Chars
  import opened Coords
  import opened Token

  /** Reading a run in place agrees with reading the digits cut out of it. */
  lemma {:induction false} RunValueOfSlice(s: string, i: nat, e: nat)
    requires i <= e <= |s|
    requires forall k :: i <= k < e ==> IsDigit(s[k])
    ensures AllDigits(s[i..e]) && RunValue(s, i, e) == DigitsValue(s[i..e])
    decreases e - i
  {
    var ds := s[i..e];
    assert forall k :: 0 <= k < |ds| ==> ds[k] == s[i + k];
    if e > i {
      RunValueOfSlice(s, i, e - 1);
      assert ds[..|ds| - 1] == s[i..e - 1];
    }
  }

  lemma {:induction false} RunFractionOfSlice(s: string, i: nat, e: nat)
    requires i <= e <= |s|
    requires forall k :: i <= k < e ==> IsDigit(s[k])
    ensures AllDigits(s[i..e]) && RunFraction(s, i, e) == FractionValue(s[i..e])
    decreases e - i
  {
    var ds := s[i..e];
    assert forall k :: 0 <= k < |ds| ==> ds[k] == s[i + k];
    if e > i {
      RunFractionOfSlice(s, i + 1, e);
      assert ds[1..] == s[i + 1..e];
    }
  }

  /** A degree match has its degree mark after the direction letter. */
  lemma DmsAtHasMark(s: string, p: nat)
    requires DmsAt(s, p).Some?
    ensures p < RunEnd(s, RunEnd(s, p + 1, Space), Digit) < |s|
    ensures IsDegreeMark(s[RunEnd(s, RunEnd(s, p + 1, Space), Digit)])
  {
  }

  /** The number `DecimalAt` reads is made of digits and at most one point. */
  lemma DecimalAtChars(s: string, b: nat)
    requires b <= |s| && DecimalAt(s, b).Some?
    ensures forall k :: b <= k < DecimalAt(s, b).value.1 ==> IsDigit(s[k]) || s[k] == '.'
  {
    var c := RunEnd(s, b, Digit);
    var f := if c < |s| && s[c] == '.' then RunEnd(s, c + 1, Digit) else c;
    forall k | b <= k < DecimalAt(s, b).value.1 ensures IsDigit(s[k]) || s[k] == '.' {
      if k >= c && c + 1 < f {
        assert k == c || IsDigit(s[k]);
      }
    }
  }

  /** A token the bare decimal pattern accepts holds no degree mark. */
  lemma BareHasNoDegreeMark(s: string)
    requires BareMatch(s).Some?
    ensures forall k :: 0 <= k < |s| ==> !IsDegreeMark(s[k])
  {
    var a := RunEnd(s, 0, Space);
    var b := RunEnd(s, a + 1, Space);
    var d := DecimalAt(s, b).value.1;
    DecimalAtChars(s, b);
    assert RunEnd(s, d, Space) == |s|;
    forall k | 0 <= k < |s| ensures !IsDegreeMark(s[k]) {
      if k < a {
      } else if k == a {
      } else if k < b {
      } else if k < d {
        assert IsDigit(s[k]) || s[k] == '.';
      } else {
        assert IsSpace(s[k]);
      }
    }
  }

  /** Searching for the degree pattern first everywhere and only then trying
      the bare decimal gives the value the union pattern gives, because the
      two alternatives never both match one token. */
  lemma UnionOrder(s: string)
    ensures CoordToDecimal(s) == (match UnionMatch(s) case Some(m) => Fin(Decimal(m)) case None => Inf)
  {
    if BareMatch(s).Some? {
      BareOnly(s);
    }
  }

  /** A token the bare pattern reads is not read by the degree pattern anywhere. */
  lemma BareOnly(s: string)
    requires BareMatch(s).Some?
    ensures FindDms(s, 0).None?
  {
    BareHasNoDegreeMark(s);
    forall q | 0 <= q < |s| ensures DmsAt(s, q).None? {
      if DmsAt(s, q).Some? {
        DmsAtHasMark(s, q);
      }
    }
  }

  /** The leftmost degree match is found, whatever follows it. */
  lemma FirstDms(s: string, p: nat)
    requires DmsAt(s, p).Some?
    requires forall q :: 0 <= q < p ==> DmsAt(s, q).None?
    ensures FindDms(s, 0) == Some(p)
  {
  }

  /** Text appended after a position where the degree pattern fails, when it
      starts with a direction letter, cannot make the pattern match there:
      the letter is neither whitespace, nor a digit, nor a degree mark. */
  lemma DmsAtBefore(pre: string, u: string, q: nat)
    requires q < |pre| && DmsAt(pre, q).None?
    requires |u| > 0 && IsDirection(u[0])
    ensures DmsAt(pre + u, q).None?
  {
    var s := pre + u;
    assert s[q] == pre[q];
    if IsDirection(pre[q]) {
      var a := RunEnd(pre, q + 1, Space);
      RunEndBefore(pre, u, q + 1, Space);
      var b := RunEnd(pre, a, Digit);
      RunEndBefore(pre, u, a, Digit);
      assert s[b] == if b < |pre| then pre[b] else u[0];
      DmsAtNone(s, q, a, b);
    }
  }

  /** Text with no degree match keeps none before the text appended to it,
      when what is appended starts with a direction letter. */
  lemma NoDmsBefore(pre: string, u: string)
    requires FindDms(pre, 0).None?
    requires |u| > 0 && IsDirection(u[0])
    ensures forall q :: 0 <= q < |pre| ==> DmsAt(pre + u, q).None?
  {
    forall q | 0 <= q < |pre| ensures DmsAt(pre + u, q).None? {
      DmsAtBefore(pre, u, q);
    }
  }

  /** Without a direction letter at `p` there is no degree match there. */
  lemma DmsAtNoLetter(s: string, p: nat)
    requires !(p < |s| && IsDirection(s[p]))
    ensures DmsAt(s, p).None?
  {
  }

  /** What a degree match at `p` reads, once the runs after the letter and
      the groups after the degree mark are known. */
  lemma DmsAtIs(s: string, p: nat, a: nat, b: nat, deg: nat, min: Option<nat>, sec: Option<nat>)
    requires p < |s| && IsDirection(s[p])
    requires RunEnd(s, p + 1, Space) == a && RunEnd(s, a, Digit) == b
    requires a < b < |s| && IsDegreeMark(s[b]) && RunValue(s, a, b) == deg
    requires MarkedNumber(s, b + 1, true).0 == min
    requires MarkedNumber(s, MarkedNumber(s, b + 1, true).1, false).0 == sec
    ensures DmsAt(s, p) == Some(TokenMatch(s[p], deg as real, min, sec))
  {
    DmsAtGroups(s, p, a, b);
  }

  lemma DmsAtGroups(s: string, p: nat, a: nat, b: nat)
    requires p < |s| && IsDirection(s[p])
    requires RunEnd(s, p + 1, Space) == a && RunEnd(s, a, Digit) == b
    requires a < b < |s| && IsDegreeMark(s[b])
    ensures DmsAt(s, p) == Some(DmsGroups(s, p, a, b))
  {
  }

  /** No degree mark after the digit run: no match at `p`. */
  lemma DmsAtNone(s: string, p: nat, a: nat, b: nat)
    requires p < |s| && RunEnd(s, p + 1, Space) == a
    requires a <= |s| && RunEnd(s, a, Digit) == b
    requires !(a < b < |s| && IsDegreeMark(s[b]))
    ensures DmsAt(s, p).None?
  {
  }
}
