/** `parse_bounds` and `parse`: a cataloguing statement of bounds such as
    `(W 123°--W 122°/N 37°--N 36°).` is cleaned, cut at its slash into an
    east/west half (the Ruby class calls it `lat`) and a north/south half
    (`lng`), each half is cut at its dash runs, every piece is converted,
    and each half yields its minimum and maximum. */
module Coordinate {
  import opened Options
  import opened Chars
  import opened Coords
  import opened Token
  import opened Cleaner
  import opened DashSplit
  import opened Rectangle

  /** `[EW].+-+.+` (or `[NS].+-+.+`) matching all of `h`: the lead letter,
      then a dash with at least one character between it and the letter
      and at least one after it. */
  predicate HalfShape(h: string, lead: Class) {
    |h| > 0 && In(h[0], lead) && DashFrom(h, 2)
  }

  /** A dash at `i` or later, with at least one character after it. */
  predicate DashFrom(h: string, i: nat)
    decreases |h| - i
  {
    i + 2 <= |h| && (h[i] == '-' || DashFrom(h, i + 1))
  }

  /** `DashFrom` is the search for a dash position. */
  lemma {:induction false} DashFromIff(h: string, i: nat)
    ensures DashFrom(h, i) <==> exists k :: i <= k && k + 2 <= |h| && h[k] == '-'
    decreases |h| - i
  {
    if i + 2 <= |h| && h[i] != '-' {
      DashFromIff(h, i + 1);
      if exists k :: i <= k && k + 2 <= |h| && h[k] == '-' {
        var k :| i <= k && k + 2 <= |h| && h[k] == '-';
        assert i + 1 <= k;
      }
    }
  }

  /** A dash that leaves a character after it in a prefix leaves one in any
      longer prefix. */
  lemma DashFromPrefix(s: string, e: nat, j: nat)
    requires e <= j <= |s| && DashFrom(s[..e], 2)
    ensures DashFrom(s[..j], 2)
  {
    DashFromIff(s[..e], 2);
    var k :| 2 <= k && k + 2 <= e && s[..e][k] == '-';
    assert s[..j][k] == '-';
    DashFromIff(s[..j], 2);
  }

  /** The slash at `j` can separate the two halves: everything before it is
      an east/west half, and what follows it after any whitespace is a
      north/south half. */
  predicate SplitsAt(s: string, j: nat) {
    j < |s| && s[j] == '/'
    && HalfShape(s[..j], EastWest)
    && HalfShape(s[RunEnd(s, j + 1, Space)..], NorthSouth)
  }

  /** The whole bounds pattern (`lat`, optional whitespace, a slash,
      optional whitespace, `lng`, anchored at both ends) read declaratively:
      `lat` is `s[..e]`, whitespace runs up to the slash at `j` and from it
      up to `g`, and `lng` is `s[g..]`. */
  ghost predicate BoundsPattern(s: string, e: nat, j: nat, g: nat) {
    e <= j < g <= |s|
    && HalfShape(s[..e], EastWest)
    && (forall k :: e <= k < j ==> IsSpace(s[k]))
    && s[j] == '/'
    && (forall k :: j < k < g ==> IsSpace(s[k]))
    && HalfShape(s[g..], NorthSouth)
  }

  /** The rightmost slash below `n` that can separate the halves. */
  function LastSplitBelow(s: string, n: nat): (r: Option<nat>)
    requires n <= |s|
    ensures r.Some? ==> r.value < n && SplitsAt(s, r.value)
    ensures r.Some? ==> forall k :: r.value < k < n ==> !SplitsAt(s, k)
    ensures r.None? ==> forall k :: 0 <= k < n ==> !SplitsAt(s, k)
  {
    if n == 0 then None
    else if SplitsAt(s, n - 1) then Some(n - 1)
    else LastSplitBelow(s, n - 1)
  }

  /** Where the engine's match puts the two halves: `lat` ends at the
      rightmost separating slash, `lng` starts after the whitespace
      following it. */
  function Halves(s: string): (r: Option<(nat, nat)>)
    ensures r.None? <==> forall k :: 0 <= k < |s| ==> !SplitsAt(s, k)
    ensures r.Some? ==> r.value.0 < r.value.1 <= |s| && SplitsAt(s, r.value.0)
    ensures r.Some? ==> forall k :: r.value.0 < k < |s| ==> !SplitsAt(s, k)
    ensures r.Some? ==> HalfShape(s[..r.value.0], EastWest) && HalfShape(s[r.value.1..], NorthSouth)
    ensures r.Some? ==> forall k :: r.value.0 < k < r.value.1 ==> IsSpace(s[k])
  {
    match LastSplitBelow(s, |s|)
    case Some(j) => Some((j, RunEnd(s, j + 1, Space)))
    case None => None
  }

  /** A match of the declarative pattern puts a separating slash at `j`. */
  lemma PatternSplits(s: string, e: nat, j: nat, g: nat)
    requires BoundsPattern(s, e, j, g)
    ensures SplitsAt(s, j)
  {
    assert !IsSpace(s[g]);
    RunEndUnique(s, j + 1, Space, g);
    DashFromPrefix(s, e, j);
    assert s[..j][0] == s[..e][0];
  }

  /** The engine's match is the one with the longest `lat`: every `.+` is
      greedy, so the first match found ends `lat` at the rightmost slash
      that leaves both halves well formed. `Halves` finds exactly that
      match, and finds nothing exactly when the pattern cannot match. */
  lemma HalvesIsLongestLat(s: string)
    ensures Halves(s).Some? ==>
      BoundsPattern(s, Halves(s).value.0, Halves(s).value.0, Halves(s).value.1)
    ensures Halves(s).Some? ==>
      forall e: nat, j: nat, g: nat :: BoundsPattern(s, e, j, g) ==> e <= Halves(s).value.0
    ensures Halves(s).None? <==> forall e: nat, j: nat, g: nat :: !BoundsPattern(s, e, j, g)
  {
    forall e: nat, j: nat, g: nat | BoundsPattern(s, e, j, g)
      ensures Halves(s).Some? && e <= Halves(s).value.0
    {
      PatternSplits(s, e, j, g);
    }
    if Halves(s).Some? {
      var (j, g) := Halves(s).value;
      assert SplitsAt(s, j);
      assert BoundsPattern(s, j, j, g);
    }
  }

  /** `map { |x| coord_to_decimal(x) }`. */
  function Convert(pieces: seq<string>): (r: seq<Coord>)
    ensures |r| == |pieces|
    ensures forall i :: 0 <= i < |pieces| ==> r[i] == CoordToDecimal(pieces[i])
  {
    if |pieces| == 0 then [] else [CoordToDecimal(pieces[0])] + Convert(pieces[1..])
  }

  /** The hash `parse_bounds` returns; `None` is `nil`. */
  datatype BoundsHash = BoundsHash(minx: Option<Coord>, miny: Option<Coord>, maxx: Option<Coord>, maxy: Option<Coord>)

  /** A half that starts with a letter has at least one piece. */
  lemma HalfHasPieces(h: string, lead: Class)
    requires HalfShape(h, lead) && (lead == EastWest || lead == NorthSouth)
    ensures |SplitDashes(h)| > 0
  {
  }

  /** The converted pieces of the east/west and the north/south half. */
  function HalfValues(s: string): (r: (seq<Coord>, seq<Coord>))
    requires Halves(s).Some?
    ensures |r.0| > 0 && |r.1| > 0
  {
    var (e, g) := Halves(s).value;
    HalfHasPieces(s[..e], EastWest);
    HalfHasPieces(s[g..], NorthSouth);
    (Convert(SplitDashes(s[..e])), Convert(SplitDashes(s[g..])))
  }

  /** `parse_bounds`: all four bounds or none; when present, the x bounds
      are the least and greatest values among the pieces of the east/west
      half, and the y bounds among those of the north/south half. */
  function ParseBounds(value: string): (h: BoundsHash)
    ensures h.minx.None? <==> Halves(Clean(value)).None?
    ensures h.minx.None? ==> h == BoundsHash(None, None, None, None)
    ensures h.minx.Some? ==> h.miny.Some? && h.maxx.Some? && h.maxy.Some?
    ensures h.minx.Some? ==>
      var (xs, ys) := HalfValues(Clean(value));
      && h.minx.value in xs && h.maxx.value in xs
      && (forall x :: x in xs ==> Le(h.minx.value, x) && Le(x, h.maxx.value))
      && h.miny.value in ys && h.maxy.value in ys
      && (forall y :: y in ys ==> Le(h.miny.value, y) && Le(y, h.maxy.value))
  {
    var c := Clean(value);
    if Halves(c).None? then BoundsHash(None, None, None, None)
    else
      var (xs, ys) := HalfValues(c);
      BoundsHash(Some(MinOf(xs)), Some(MinOf(ys)), Some(MaxOf(xs)), Some(MaxOf(ys)))
  }

  /** `parse`: the bounds statement as a coordinate object. */
  function Parse(value: string): (r: Rect)
    ensures r.Empty? <==> Halves(Clean(value)).None?
    ensures r.Bounds? ==> Le(r.minx, r.maxx) && Le(r.miny, r.maxy)
  {
    var h := ParseBounds(value);
    New(h.minx, h.miny, h.maxx, h.maxy)
  }

  /** `valid?` on a parsed statement: it holds exactly when the pattern
      matches and every converted piece of the east/west half lies in
      -180..180 and every converted piece of the north/south half in
      -90..90. One piece out of range, or one unreadable piece, is enough to
      make the object invalid. */
  lemma ValidIffPiecesInRange(value: string)
    ensures Valid(Parse(value)) <==>
      && Halves(Clean(value)).Some?
      && (forall x :: x in HalfValues(Clean(value)).0 ==> InRange(x, -180.0, 180.0))
      && (forall y :: y in HalfValues(Clean(value)).1 ==> InRange(y, -90.0, 90.0))
  {
    var c := Clean(value);
    if Halves(c).Some? {
      var (xs, ys) := HalfValues(c);
      var r := Parse(value);
      assert r == Bounds(MinOf(xs), MinOf(ys), MaxOf(xs), MaxOf(ys));
      if Valid(r) {
        forall x | x in xs ensures InRange(x, -180.0, 180.0) {
          BetweenInRange(r.minx, x, r.maxx, -180.0, 180.0);
        }
        forall y | y in ys ensures InRange(y, -90.0, 90.0) {
          BetweenInRange(r.miny, y, r.maxy, -90.0, 90.0);
        }
      }
    }
  }

  /** A value between two values of a range lies in that range. */
  lemma BetweenInRange(lo: Coord, x: Coord, hi: Coord, a: real, b: real)
    requires InRange(lo, a, b) && InRange(hi, a, b) && Le(lo, x) && Le(x, hi)
    ensures InRange(x, a, b)
  {
  }

  /** A value the bounds pattern cannot match after cleaning parses to an
      object with empty bounds, which is never valid. */
  lemma ParseUnmatched(value: string)
    requires forall e: nat, j: nat, g: nat :: !BoundsPattern(Clean(value), e, j, g)
    ensures Parse(value) == Empty && !Valid(Parse(value))
  {
    HalvesIsLongestLat(Clean(value));
  }

  /** One piece that neither pattern of `coord_to_decimal` reads makes the
      maximum infinite, so the parsed object is never valid. */
  lemma UnreadableLongitudeInvalid(value: string, i: nat)
    requires Halves(Clean(value)).Some?
    requires i < |HalfValues(Clean(value)).0| && HalfValues(Clean(value)).0[i].Inf?
    ensures Parse(value).Bounds? && Parse(value).maxx.Inf? && !Valid(Parse(value))
  {
    var xs := HalfValues(Clean(value)).0;
    assert xs[i] in xs;
  }

  /** The same for a piece of the north/south half. */
  lemma UnreadableLatitudeInvalid(value: string, i: nat)
    requires Halves(Clean(value)).Some?
    requires i < |HalfValues(Clean(value)).1| && HalfValues(Clean(value)).1[i].Inf?
    ensures Parse(value).Bounds? && Parse(value).maxy.Inf? && !Valid(Parse(value))
  {
    var ys := HalfValues(Clean(value)).1;
    assert ys[i] in ys;
  }

  /** Wrapping a statement in parentheses, with or without the closing one
      and a final full stop, does not change what it parses to. */
  lemma ParseUnwraps(value: string, tail: string)
    requires |value| > 0 && value[0] != '(' && Free(value, ')')
    requires tail == "" || tail == ")" || tail == ")."
    ensures Parse("(" + value + tail) == Parse(value)
    ensures Parse(value + tail) == Parse(value)
  {
    CleanUnwraps(value, tail);
    CleanKeepsPlain(value, tail);
    CleanKeepsPlain(value, "");
    assert value + "" == value;
  }

  /** Two dash-free pieces joined by a dash run form a half when the first
      starts with the lead letter and has one more character. */
  lemma TwoPieceShape(a: string, n: nat, b: string, lead: Class)
    requires |a| >= 2 && In(a[0], lead) && n > 0 && |b| > 0
    ensures HalfShape(a + (Dashes(n) + b), lead)
  {
    var h := a + (Dashes(n) + b);
    assert h[|a|] == Dashes(n)[0] == '-';
    assert h[0] == a[0];
    DashFromIff(h, 2);
  }

  /** Two dash-free pieces joined by a dash run split back into those two. */
  lemma TwoPieces(a: string, n: nat, b: string)
    requires Free(a, '-') && Free(b, '-') && n > 0 && |b| > 0
    ensures SplitDashes(a + (Dashes(n) + b)) == [a, b]
  {
    var parts := [a, b];
    assert FieldsShape(parts);
    SplitJoinRuns(parts, [n], 0);
    assert parts[1..] == [b];
    assert JoinRuns(parts, [n]) + Dashes(0) == a + (Dashes(n) + b);
  }

  lemma MinMaxOfTwo(x: Coord, y: Coord)
    ensures MinOf([x, y]) == Min(x, y) && MaxOf([x, y]) == Max(x, y)
  {
    assert [x, y][1..] == [y];
  }

  /** The rightmost separating slash is at `j` when there is none after it. */
  lemma LastSplitIs(s: string, j: nat)
    requires SplitsAt(s, j) && forall k :: j < k < |s| ==> !SplitsAt(s, k)
    ensures LastSplitBelow(s, |s|) == Some(j)
  {
  }

  /** Where the halves of `lat + "/" + lng` lie, when `lng` holds no slash
      and does not start with whitespace. */
  lemma SlashHalves(s: string, lat: string, lng: string)
    requires s == lat + ("/" + lng)
    requires HalfShape(lat, EastWest) && HalfShape(lng, NorthSouth) && Free(lng, '/')
    ensures Halves(s) == Some((|lat|, |lat| + 1))
    ensures s[..|lat|] == lat && s[|lat| + 1..] == lng
  {
    var j := |lat|;
    Parts3(lat, "/", lng);
    assert s[j] == '/';
    assert s[j + 1] == lng[0];
    RunEndUnique(s, j + 1, Space, j + 1);
    assert SplitsAt(s, j);
    forall k | j < k < |s| ensures !SplitsAt(s, k) {
      assert s[k] == lng[k - j - 1];
    }
    LastSplitIs(s, j);
  }

  /** `parse` on a statement whose cleaned form has two pieces in each half. */
  lemma ParseOfPieces(value: string, lat: string, lng: string, a: string, b: string, c: string, d: string)
    requires Clean(value) == value && Halves(value) == Some((|lat|, |lat| + 1))
    requires |lat| + 1 <= |value| && value[..|lat|] == lat && value[|lat| + 1..] == lng
    requires SplitDashes(lat) == [a, b] && SplitDashes(lng) == [c, d]
    ensures Parse(value) == Bounds(
      Min(CoordToDecimal(a), CoordToDecimal(b)), Min(CoordToDecimal(c), CoordToDecimal(d)),
      Max(CoordToDecimal(a), CoordToDecimal(b)), Max(CoordToDecimal(c), CoordToDecimal(d)))
  {
    var (xs, ys) := HalfValues(value);
    assert xs == [CoordToDecimal(a), CoordToDecimal(b)];
    assert ys == [CoordToDecimal(c), CoordToDecimal(d)];
    MinMaxOfTwo(CoordToDecimal(a), CoordToDecimal(b));
    MinMaxOfTwo(CoordToDecimal(c), CoordToDecimal(d));
  }

  /** The usual shape of a bounds statement, `a--b/c--d` with dash runs of
      any length: `a` starts an east/west half and `c` a north/south half
      with one more character, no piece holds a dash or a closing
      parenthesis, and the second half holds no slash. */
  predicate FourTokens(a: string, b: string, c: string, d: string) {
    |a| >= 2 && IsEastWest(a[0]) && |b| > 0
    && |c| >= 2 && IsNorthSouth(c[0]) && |d| > 0
    && Free(a, '-') && Free(b, '-') && Free(c, '-') && Free(d, '-')
    && Free(c, '/') && Free(d, '/')
    && Free(a, ')') && Free(b, ')') && Free(c, ')') && Free(d, ')')
  }

  /** For a statement of the usual shape, the x bounds are the smaller and
      larger of the values of `a` and `b`, the y bounds those of `c` and
      `d`, whatever order each pair is written in. */
  lemma ParseFourTokens(a: string, n: nat, b: string, c: string, m: nat, d: string)
    requires FourTokens(a, b, c, d) && n > 0 && m > 0
    ensures Parse(a + (Dashes(n) + b) + ("/" + (c + (Dashes(m) + d)))) == Bounds(
      Min(CoordToDecimal(a), CoordToDecimal(b)), Min(CoordToDecimal(c), CoordToDecimal(d)),
      Max(CoordToDecimal(a), CoordToDecimal(b)), Max(CoordToDecimal(c), CoordToDecimal(d)))
  {
    var lat := a + (Dashes(n) + b);
    var lng := c + (Dashes(m) + d);
    FourTokenHalves(a, n, b, c, m, d);
    ParseTwoHalves(lat + ("/" + lng), lat, lng, a, b, c, d);
  }

  /** What `parse` needs of the two halves of `lat + "/" + lng`. */
  predicate TwoHalves(lat: string, lng: string, a: string, b: string, c: string, d: string) {
    HalfShape(lat, EastWest) && HalfShape(lng, NorthSouth) && Free(lng, '/')
    && Free(lat, ')') && Free(lng, ')')
    && SplitDashes(lat) == [a, b] && SplitDashes(lng) == [c, d]
  }

  lemma FourTokenHalves(a: string, n: nat, b: string, c: string, m: nat, d: string)
    requires FourTokens(a, b, c, d) && n > 0 && m > 0
    ensures TwoHalves(a + (Dashes(n) + b), c + (Dashes(m) + d), a, b, c, d)
  {
    TwoPieceShape(a, n, b, EastWest);
    TwoPieceShape(c, m, d, NorthSouth);
    TwoPieces(a, n, b);
    TwoPieces(c, m, d);
    FreeJoin(c, Dashes(m), d, '/');
    FreeJoin(a, Dashes(n), b, ')');
    FreeJoin(c, Dashes(m), d, ')');
  }

  /** `lat + "/" + lng` with two pieces in each half. */
  lemma ParseTwoHalves(s: string, lat: string, lng: string, a: string, b: string, c: string, d: string)
    requires s == lat + ("/" + lng) && TwoHalves(lat, lng, a, b, c, d)
    ensures Parse(s) == Bounds(
      Min(CoordToDecimal(a), CoordToDecimal(b)), Min(CoordToDecimal(c), CoordToDecimal(d)),
      Max(CoordToDecimal(a), CoordToDecimal(b)), Max(CoordToDecimal(c), CoordToDecimal(d)))
  {
    SlashFree(s, lat, lng);
    PlainIsClean(s);
    SlashHalves(s, lat, lng);
    ParseOfPieces(s, lat, lng, a, b, c, d);
  }

  /** The statement holds no `)` and does not open with `(`. */
  lemma SlashFree(s: string, lat: string, lng: string)
    requires s == lat + ("/" + lng)
    requires |lat| > 0 && lat[0] != '(' && Free(lat, ')') && Free(lng, ')')
    ensures |s| > 0 && s[0] != '(' && Free(s, ')')
  {
    FreeJoin(lat, "/", lng, ')');
    assert s[0] == lat[0];
  }

  /** A value with no parentheses is its own cleaned form. */
  lemma PlainIsClean(s: string)
    requires |s| > 0 && s[0] != '(' && Free(s, ')')
    ensures Clean(s) == s
  {
    CleanKeepsPlain(s, "");
    assert s + "" == s;
  }

  lemma FreeJoin(x: string, y: string, z: string, ch: char)
    requires Free(x, ch) && Free(y, ch) && Free(z, ch)
    ensures Free(x + (y + z), ch)
  {
    var s := x + (y + z);
    forall k | 0 <= k < |s| ensures s[k] != ch {
      if k < |x| {
        assert s[k] == x[k];
      } else if k < |x| + |y| {
        assert s[k] == y[k - |x|];
      } else {
        assert s[k] == z[k - |x| - |y|];
      }
    }
  }
}
