/** Character classes of the coordinate patterns and the decimal reading of digit runs. */
module Chars {

  /** `\s` in a Ruby pattern: ASCII whitespace only. */
  predicate IsSpace(c: char) {
    c == ' ' || c == '\t' || c == '\n' || c == '\r' || c == '\U{000B}' || c == '\U{000C}'
  }

  /** `\d` in a Ruby pattern: ASCII digits only. */
  predicate IsDigit(c: char) {
    '0' <= c <= '9'
  }

  /** `[NESW]`: a compass direction letter, upper case only. */
  predicate IsDirection(c: char) {
    c == 'N' || c == 'E' || c == 'S' || c == 'W'
  }

  /** `[°⁰º]`: degree sign, superscript zero, masculine ordinal indicator. */
  predicate IsDegreeMark(c: char) {
    c == '\U{00B0}' || c == '\U{2070}' || c == '\U{00BA}'
  }

  /** `[ʹ']`: modifier letter prime or ASCII apostrophe. */
  predicate IsMinuteMark(c: char) {
    c == '\U{02B9}' || c == '\''
  }

  /** `[ʺ"]`: modifier letter double prime or ASCII quotation mark. */
  predicate IsSecondMark(c: char) {
    c == '\U{02BA}' || c == '"'
  }

  /** `[EW]`, the letter an east/west half starts with. */
  predicate IsEastWest(c: char) {
    c == 'E' || c == 'W'
  }

  /** `[NS]`, the letter a north/south half starts with. */
  predicate IsNorthSouth(c: char) {
    c == 'N' || c == 'S'
  }

  predicate IsDash(c: char) {
    c == '-'
  }

  /** No occurrence of `c` in `p`. */
  predicate Free(p: string, c: char) {
    forall k :: 0 <= k < |p| ==> p[k] != c
  }

  /** Text made only of `\s` characters, such as the optional whitespace
      between the parts of a token. */
  predicate Blank(w: string) {
    forall k :: 0 <= k < |w| ==> IsSpace(w[k])
  }

  predicate AllDigits(s: string) {
    forall k :: 0 <= k < |s| ==> IsDigit(s[k])
  }

  /** The character classes the patterns use: those runs are taken of, and
      the lead letters of the two halves. */
  datatype Class = Space | Digit | Dash | NonDash | NonCloseParen | EastWest | NorthSouth

  predicate In(c: char, k: Class) {
    match k
    case Space => IsSpace(c)
    case Digit => IsDigit(c)
    case Dash => IsDash(c)
    case NonDash => !IsDash(c)
    case NonCloseParen => c != ')'
    case EastWest => IsEastWest(c)
    case NorthSouth => IsNorthSouth(c)
  }

  /** End of the longest run of characters of class `p` that starts at `i`:
      the position a greedy `p*` stops at. */
  function RunEnd(s: string, i: nat, p: Class): (e: nat)
    requires i <= |s|
    ensures i <= e <= |s|
    ensures forall k :: i <= k < e ==> In(s[k], p)
    ensures e == |s| || !In(s[e], p)
    decreases |s| - i
  {
    if i < |s| && In(s[i], p) then RunEnd(s, i + 1, p) else i
  }

  /** A run is determined by where it starts: any position that ends a run of
      `p` from `i` is the one `RunEnd` finds. */
  lemma RunEndUnique(s: string, i: nat, p: Class, e: nat)
    requires i <= e <= |s|
    requires forall k :: i <= k < e ==> In(s[k], p)
    requires e == |s| || !In(s[e], p)
    ensures RunEnd(s, i, p) == e
  {
  }

  /** Text appended after a run cannot lengthen it when it starts with a
      character outside the class. */
  lemma RunEndBefore(s: string, u: string, i: nat, p: Class)
    requires i <= |s| && |u| > 0 && !In(u[0], p)
    ensures RunEnd(s + u, i, p) == RunEnd(s, i, p)
  {
    var e := RunEnd(s, i, p);
    forall k | i <= k < e ensures In((s + u)[k], p) {
      assert (s + u)[k] == s[k];
    }
    assert (s + u)[e] == if e < |s| then s[e] else u[0];
    RunEndUnique(s + u, i, p, e);
  }

  /** Two texts that agree on `p` everywhere have the same runs. */
  lemma {:induction false} RunEndAgree(s: string, t: string, i: nat, p: Class)
    requires |s| == |t| && i <= |s|
    requires forall k :: 0 <= k < |s| ==> In(s[k], p) == In(t[k], p)
    ensures RunEnd(s, i, p) == RunEnd(t, i, p)
    decreases |s| - i
  {
    if i < |s| && In(s[i], p) {
      RunEndAgree(s, t, i + 1, p);
    }
  }

  /** Ten to the power `k`: the bound on the value of a `k`-digit run. */
  function Pow10(k: nat): (p: nat)
    ensures p >= 1
  {
    if k == 0 then 1 else 10 * Pow10(k - 1)
  }

  /** The value of a decimal digit; other characters, which no digit run
      holds, count as zero. */
  function DigitValue(c: char): (d: nat)
    ensures d < 10
  {
    if IsDigit(c) then (c as int) - ('0' as int) else 0
  }

  /** The number a run of decimal digits denotes, most significant digit
      first; leading zeros are allowed (`"030"` reads as 30). */
  function DigitsValue(ds: string): (n: nat)
    ensures n < Pow10(|ds|)
  {
    if |ds| == 0 then 0 else 10 * DigitsValue(ds[..|ds| - 1]) + DigitValue(ds[|ds| - 1])
  }

  /** The digits after a decimal point, read from the left: `.25` is
      (2 + 5/10)/10. */
  function FractionValue(ds: string): (f: real)
    ensures 0.0 <= f < 1.0
  {
    if |ds| == 0 then 0.0 else (DigitValue(ds[0]) as real + FractionValue(ds[1..])) / 10.0
  }
}
