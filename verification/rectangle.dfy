/** A `Coordinate` object: four bounds or none, the geographic validity
    test, and the two output formats (WKT/CQL `ENVELOPE` and Solr `bbox`). */
module Rectangle {
  import opened Options
  import opened Chars
  import opened Coords

  /** The `bounds` hash after construction: either all four keys or empty. */
  datatype Rect = Empty | Bounds(minx: Coord, miny: Coord, maxx: Coord, maxy: Coord)

  /** `initialize`: each keyword argument is coerced with `Float()`, here
      `None` when that coercion fails; one failure leaves the bounds empty. */
  function New(minx: Option<Coord>, miny: Option<Coord>, maxx: Option<Coord>, maxy: Option<Coord>): (r: Rect)
    ensures r.Bounds? <==> minx.Some? && miny.Some? && maxx.Some? && maxy.Some?
    ensures r.Bounds? ==> Some(r.minx) == minx && Some(r.miny) == miny && Some(r.maxx) == maxx && Some(r.maxy) == maxy
  {
    if minx.Some? && miny.Some? && maxx.Some? && maxy.Some? then
      Bounds(minx.value, miny.value, maxx.value, maxy.value)
    else
      Empty
  }

  /** Ruby's closed float range `lo..hi`: infinity lies in neither range used here. */
  predicate InRange(c: Coord, lo: real, hi: real) {
    c.Fin? && lo <= c.r <= hi
  }

  /** `valid?`: non-empty, both x bounds in -180..180 and both y bounds in
      -90..90. The order of min and max is not checked. */
  predicate Valid(r: Rect): (ok: bool)
    ensures ok ==> r.Bounds? && r.minx.Fin? && r.miny.Fin? && r.maxx.Fin? && r.maxy.Fin?
    ensures ok ==> -180.0 <= r.minx.r <= 180.0 && -180.0 <= r.maxx.r <= 180.0
    ensures ok ==> -90.0 <= r.miny.r <= 90.0 && -90.0 <= r.maxy.r <= 90.0
  {
    r.Bounds?
    && InRange(r.minx, -180.0, 180.0) && InRange(r.maxx, -180.0, 180.0)
    && InRange(r.miny, -90.0, 90.0) && InRange(r.maxy, -90.0, 90.0)
  }

  /** `as_bbox`: the four numbers in Solr order min x, min y, max x, max y,
      or `nil` when the bounds are not valid. */
  function AsBbox(r: Rect): (b: Option<seq<real>>)
    ensures b.Some? <==> Valid(r)
    ensures b.Some? ==> |b.value| == 4
    ensures b.Some? ==> r == New(Some(Fin(b.value[0])), Some(Fin(b.value[1])),
                                 Some(Fin(b.value[2])), Some(Fin(b.value[3])))
    ensures b.Some? ==> forall i :: 0 <= i < 4 ==> -180.0 <= b.value[i] <= 180.0
  {
    if Valid(r) then Some([r.minx.r, r.miny.r, r.maxx.r, r.maxy.r]) else None
  }

  /** `as_envelope`: the four numbers in ENVELOPE order min x, max x, max y,
      min y, or `nil` when the bounds are not valid. */
  function AsEnvelope(r: Rect): (e: Option<seq<real>>)
    ensures e.Some? <==> Valid(r)
    ensures e.Some? ==> |e.value| == 4
    ensures e.Some? ==> r == New(Some(Fin(e.value[0])), Some(Fin(e.value[3])),
                                 Some(Fin(e.value[1])), Some(Fin(e.value[2])))
  {
    if Valid(r) then Some([r.minx.r, r.maxx.r, r.maxy.r, r.miny.r]) else None
  }

  /** The two formats carry the same four numbers, permuted. */
  lemma EnvelopeReordersBbox(r: Rect)
    ensures AsEnvelope(r).Some? <==> AsBbox(r).Some?
    ensures AsBbox(r).Some? ==>
      var b := AsBbox(r).value;
      AsEnvelope(r).value == [b[0], b[2], b[3], b[1]]
  {
  }

  /** Empty bounds are never valid, so neither format is produced. */
  lemma EmptyHasNoOutput()
    ensures !Valid(Empty) && AsBbox(Empty).None? && AsEnvelope(Empty).None?
  {
  }

  /** Validity is exactly the four range checks, whatever order the bounds are in. */
  lemma ValidIgnoresOrder(a: real, b: real, c: real, d: real)
    requires -180.0 <= a <= 180.0 && -180.0 <= c <= 180.0
    requires -90.0 <= b <= 90.0 && -90.0 <= d <= 90.0
    ensures Valid(New(Some(Fin(a)), Some(Fin(b)), Some(Fin(c)), Some(Fin(d))))
    ensures Valid(New(Some(Fin(c)), Some(Fin(d)), Some(Fin(a)), Some(Fin(b))))
  {
  }

  /** The text form of both outputs. Float's `to_s` is not modelled: the
      rendering of one number is a parameter. */
  function Join(parts: seq<string>, sep: string): (r: string)
    ensures |parts| == 0 ==> r == ""
  {
    if |parts| == 0 then ""
    else if |parts| == 1 then parts[0]
    else parts[0] + sep + Join(parts[1..], sep)
  }

  function Render(xs: seq<real>, show: real -> string): (r: seq<string>)
    ensures |r| == |xs|
    ensures forall i :: 0 <= i < |xs| ==> r[i] == show(xs[i])
  {
    if |xs| == 0 then [] else [show(xs[0])] + Render(xs[1..], show)
  }

  /** `"#{min_x} #{min_y} #{max_x} #{max_y}"`, or `nil`. */
  function BboxText(r: Rect, show: real -> string): (t: Option<string>)
    ensures t.Some? <==> Valid(r)
  {
    match AsBbox(r)
    case Some(b) => Some(Join(Render(b, show), " "))
    case None => None
  }

  /** `"ENVELOPE(#{min_x}, #{max_x}, #{max_y}, #{min_y})"`, or `nil`. */
  function EnvelopeText(r: Rect, show: real -> string): (t: Option<string>)
    ensures t.Some? <==> Valid(r)
  {
    match AsEnvelope(r)
    case Some(e) => Some("ENVELOPE(" + Join(Render(e, show), ", ") + ")")
    case None => None
  }

  /** Splitting text at every occurrence of one character. */
  function SplitAt(s: string, c: char): (r: seq<string>)
    ensures |r| > 0
    ensures forall i, k :: 0 <= i < |r| && 0 <= k < |r[i]| ==> r[i][k] != c
    decreases |s|
  {
    if |s| == 0 then [""]
    else if s[0] == c then [""] + SplitAt(s[1..], c)
    else
      var rest := SplitAt(s[1..], c);
      [[s[0]] + rest[0]] + rest[1..]
  }

  /** Splitting at the separator gives back the pieces that were joined. */
  lemma {:induction false} SplitJoin(parts: seq<string>, c: char)
    requires |parts| > 0
    requires forall i :: 0 <= i < |parts| ==> Free(parts[i], c)
    ensures SplitAt(Join(parts, [c]), c) == parts
    decreases |parts|
  {
    if |parts| == 1 {
      SplitFree(parts[0], c);
    } else {
      SplitJoin(parts[1..], c);
      SplitPrefix(parts[0], Join(parts[1..], [c]), c);
      assert parts[0] + [c] + Join(parts[1..], [c]) == parts[0] + ([c] + Join(parts[1..], [c]));
      assert parts == [parts[0]] + parts[1..];
    }
  }

  /** A piece without the separator splits to itself. */
  lemma {:induction false} SplitFree(p: string, c: char)
    requires Free(p, c)
    ensures SplitAt(p, c) == [p]
    decreases |p|
  {
    if |p| > 0 {
      SplitFree(p[1..], c);
      assert [p[0]] + p[1..] == p;
    }
  }

  /** Splitting `p + [c] + rest` starts a new piece after `p`. */
  lemma {:induction false} SplitPrefix(p: string, rest: string, c: char)
    requires Free(p, c)
    ensures SplitAt(p + ([c] + rest), c) == [p] + SplitAt(rest, c)
    decreases |p|
  {
    var s := p + ([c] + rest);
    if |p| == 0 {
      assert s == [c] + rest;
      assert s[1..] == rest;
    } else {
      assert s[0] == p[0];
      assert s[1..] == p[1..] + ([c] + rest);
      SplitPrefix(p[1..], rest, c);
      assert [p[0]] + p[1..] == p;
    }
  }

  /** The bbox text reads back, space-separated, as the rendered numbers
      when the rendering itself contains no space. */
  lemma BboxTextFields(r: Rect, show: real -> string)
    requires Valid(r)
    requires forall x :: Free(show(x), ' ')
    ensures SplitAt(BboxText(r, show).value, ' ')
      == [show(r.minx.r), show(r.miny.r), show(r.maxx.r), show(r.maxy.r)]
  {
    var parts := Render(AsBbox(r).value, show);
    SplitJoin(parts, ' ');
    assert " " == [' '];
  }

  /** `", "`-joined pieces are the `,`-joined pieces with a space in front of
      every piece after the first. */
  lemma {:induction false} JoinCommaSpace(parts: seq<string>)
    requires |parts| > 0
    ensures Join(parts, ", ") == Join([parts[0]] + SpaceLed(parts[1..]), [','])
    decreases |parts|
  {
    if |parts| > 1 {
      var tail := parts[1..];
      JoinCommaSpace(tail);
      assert SpaceLed(tail) == [" " + tail[0]] + SpaceLed(tail[1..]);
      var rest := [parts[0]] + SpaceLed(tail);
      assert rest[1..] == SpaceLed(tail);
      assert rest[1..][0] == " " + tail[0];
      JoinHead(" " + tail[0], SpaceLed(tail[1..]), ',');
      JoinHead(tail[0], SpaceLed(tail[1..]), ',');
    }
  }

  function SpaceLed(parts: seq<string>): (r: seq<string>)
    ensures |r| == |parts|
    ensures forall i :: 0 <= i < |parts| ==> r[i] == " " + parts[i]
  {
    if |parts| == 0 then [] else [" " + parts[0]] + SpaceLed(parts[1..])
  }

  /** Joining a piece in front of a non-empty list. */
  lemma JoinHead(p: string, rest: seq<string>, c: char)
    ensures Join([p] + rest, [c]) == if |rest| == 0 then p else p + [c] + Join(rest, [c])
  {
    assert ([p] + rest)[1..] == rest;
  }

  /** The envelope text reads back, after `ENVELOPE(` and before `)`, split
      at commas, as the rendered numbers in envelope order, each after the
      first led by a space, when the rendering contains no comma. */
  lemma EnvelopeTextFields(r: Rect, show: real -> string)
    requires Valid(r)
    requires forall x :: Free(show(x), ',')
    ensures exists mid ::
      EnvelopeText(r, show).value == "ENVELOPE(" + mid + ")"
      && SplitAt(mid, ',')
         == [show(r.minx.r), " " + show(r.maxx.r), " " + show(r.maxy.r), " " + show(r.miny.r)]
  {
    var parts := Render(AsEnvelope(r).value, show);
    var mid := Join(parts, ", ");
    JoinCommaSpace(parts);
    var spaced := [parts[0]] + SpaceLed(parts[1..]);
    forall i | 0 <= i < |spaced| ensures Free(spaced[i], ',') {
      if i > 0 {
        assert spaced[i] == " " + parts[i];
      }
    }
    SplitJoin(spaced, ',');
    assert SplitAt(mid, ',') == spaced;
  }
}
