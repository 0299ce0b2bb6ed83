/** `coord_to_decimal`: reading one directional coordinate token as signed
    decimal degrees. `COORD_TO_DECIMAL_REGEX` is the union of a
    degree/minute/second pattern, tried anywhere in the token, and a
    whole-line bare decimal pattern; both are written out here as matchers. */
module Token {
  import opened Options
  import opened Chars
  import opened Coords

  /** The named groups of one match: direction letter, degrees, and the
      minutes and seconds groups (`None` when the group took no part). */
  datatype TokenMatch = TokenMatch(dir: char, deg: real, min: Option<nat>, sec: Option<nat>)

  /** West and south are the negative directions. */
  function Signed(dir: char, v: real): real {
    if dir == 'W' || dir == 'S' then -v else v
  }

  /** Decimal degrees of a match; an absent group counts as zero. */
  function Decimal(m: TokenMatch): real {
    Signed(m.dir, m.deg + m.min.GetOr(0) as real / 60.0 + m.sec.GetOr(0) as real / 3600.0)
  }

  /** The number the digit run `s[i..e]` denotes, most significant digit first. */
  function RunValue(s: string, i: nat, e: nat): nat
    requires i <= e <= |s|
    decreases e - i
  {
    if e == i then 0 else 10 * RunValue(s, i, e - 1) + DigitValue(s[e - 1])
  }

  /** The digit run `s[i..e]` read as the part after a decimal point. */
  function RunFraction(s: string, i: nat, e: nat): real
    requires i <= e <= |s|
    decreases e - i
  {
    if e == i then 0.0 else (DigitValue(s[i]) as real + RunFraction(s, i + 1, e)) / 10.0
  }

  /** The optional group `(?:(?<g>\d+)[mark])?` at position `i`: the group's
      number, if the group matched, and where matching continues. */
  function MarkedNumber(s: string, i: nat, minutes: bool): (r: (Option<nat>, nat))
    requires i <= |s|
    ensures i <= r.1 <= |s|
    ensures r.0.None? <==> r.1 == i
  {
    var e := RunEnd(s, i, Digit);
    if i < e < |s| && (if minutes then IsMinuteMark(s[e]) else IsSecondMark(s[e])) then
      (Some(RunValue(s, i, e)), e + 1)
    else
      (None, i)
  }

  /** The degree/minute/second pattern anchored at position `p`: a direction
      letter, optional whitespace, degree digits and a degree mark, then the
      optional minutes group and the optional seconds group. */
  function DmsAt(s: string, p: nat): (m: Option<TokenMatch>)
    ensures m.Some? ==> p < |s| && IsDirection(s[p]) && m.value.dir == s[p]
  {
    if p < |s| && IsDirection(s[p]) then
      var a := RunEnd(s, p + 1, Space);
      var b := RunEnd(s, a, Digit);
      if a < b < |s| && IsDegreeMark(s[b]) then Some(DmsGroups(s, p, a, b)) else None
    else
      None
  }

  /** The match once the letter at `p`, the degree digits `s[a..b]` and the
      degree mark at `b` are found: the minutes and seconds groups follow. */
  function DmsGroups(s: string, p: nat, a: nat, b: nat): (m: TokenMatch)
    requires p < |s| && a <= b < |s|
    ensures m.dir == s[p]
  {
    var min := MarkedNumber(s, b + 1, true);
    var sec := MarkedNumber(s, min.1, false);
    TokenMatch(s[p], RunValue(s, a, b) as real, min.0, sec.0)
  }

  /** The unanchored search for the degree/minute/second pattern: the
      leftmost position at or after `p` where it matches. */
  function FindDms(s: string, p: nat): (r: Option<nat>)
    requires p <= |s|
    ensures r.Some? ==> p <= r.value < |s| && DmsAt(s, r.value).Some?
    ensures r.Some? ==> forall q :: p <= q < r.value ==> DmsAt(s, q).None?
    ensures r.None? ==> forall q :: p <= q < |s| ==> DmsAt(s, q).None?
    decreases |s| - p
  {
    if p == |s| then None
    else if DmsAt(s, p).Some? then Some(p)
    else FindDms(s, p + 1)
  }

  /** `\d+(?:[.]\d+)?` at position `b`: the number read and where it ends. */
  function DecimalAt(s: string, b: nat): (r: Option<(real, nat)>)
    requires b <= |s|
    ensures r.Some? ==> b < r.value.1 <= |s|
  {
    var c := RunEnd(s, b, Digit);
    if b == c then None
    else
      var whole := RunValue(s, b, c) as real;
      var f := if c < |s| && s[c] == '.' then RunEnd(s, c + 1, Digit) else c;
      if c + 1 < f then
        Some((whole + RunFraction(s, c + 1, f), f))
      else
        Some((whole, c))
  }

  /** The bare decimal pattern over the whole token: optional whitespace, a
      direction letter, optional whitespace, digits with an optional
      fractional part, optional whitespace, end of text. */
  function BareMatch(s: string): (m: Option<TokenMatch>)
    ensures m.Some? ==> m.value.min.None? && m.value.sec.None? && IsDirection(m.value.dir)
  {
    var a := RunEnd(s, 0, Space);
    if a < |s| && IsDirection(s[a]) then
      match DecimalAt(s, RunEnd(s, a + 1, Space))
      case Some((deg, d)) =>
        if RunEnd(s, d, Space) == |s| then Some(TokenMatch(s[a], deg, None, None)) else None
      case None => None
    else
      None
  }

  /** `coord_to_decimal`: the value of the first match, or infinity when
      neither pattern matches. */
  function CoordToDecimal(s: string): (r: Coord)
    ensures r.Inf? <==> FindDms(s, 0).None? && BareMatch(s).None?
  {
    match FindDms(s, 0)
    case Some(p) => Fin(Decimal(DmsAt(s, p).value))
    case None =>
      match BareMatch(s)
      case Some(m) => Fin(Decimal(m))
      case None => Inf
  }

  /** The match `Regexp.union` reports, in the engine's own order: at each
      start position the first alternative, then the second; the second is
      anchored by `^` and so can only match at position 0. */
  ghost function UnionMatch(s: string): Option<TokenMatch> {
    if DmsAt(s, 0).Some? then DmsAt(s, 0)
    else if BareMatch(s).Some? then BareMatch(s)
    else if |s| == 0 then None
    else
      match FindDms(s, 1)
      case Some(p) => DmsAt(s, p)
      case None => None
  }
}
