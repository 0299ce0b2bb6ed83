# Coordinate parsing for catalogue bounds statements

This project models `Stanford::Geo::Coordinate`, the class that reads a
free-text bounds statement from a catalogue record, such as
`(W 123°23ʹ16ʺ--W 122°31ʹ22ʺ/N 39°23ʹ57ʺ--N 38°17ʹ53ʺ)`, and turns it
into a bounding box. The box is then written out in two text forms:

- the WKT/CQL `ENVELOPE(minx, maxx, maxy, miny)` form;
- the Solr `bbox` form `minx miny maxx maxy`.

The model follows the class's pipeline:

- **Token** and **TokenFacts** hold `coord_to_decimal` and the union of
  its two patterns:
  - a degree/minute/second token found anywhere in the text;
  - a whole-text bare decimal token.

  One matched token becomes degrees + minutes/60 + seconds/3600, negated
  for W and S. A token that neither pattern reads becomes positive
  infinity. Both patterns are written out as position-by-position
  matchers over the text.
- **Marks** shows that the choice among the alternative degree, minute
  and second characters never changes the value.
- **TokenText** describes every written form of a token and proves that
  each form reads back as the number it was written with, also when other
  text surrounds it.
- **TokenRead** proves the converse: every match of either pattern is one
  of those written forms.
- **Cleaner** holds `cleaner_coordinate`: the anchored pattern strips an
  optional leading `(`, and an optional `)` optionally followed by `.`.
  The two parentheses are independent, so a lone `(` is stripped too. A
  final `.` is removed only after a `)`: the capture `[^)]+` takes it
  otherwise, so `x.` comes back as `x.`. A value the pattern does not
  match comes back unchanged.
- **DashSplit** holds `String#split(/-+/)`.
- **Coordinate** holds `parse_bounds` and `parse`. Parsing:
  1. cleans the text;
  2. finds the slash that separates the east/west half (which the Ruby
     class calls `lat`) from the north/south half (`lng`), the way the
     backtracking engine does;
  3. splits each half at its dash runs;
  4. converts each piece;
  5. takes each half's `minmax`.
- **Rectangle** holds the constructor, `valid?`, `as_envelope` and
  `as_bbox`.
- **Examples** states each case of the repository's test file against
  the model.

Ruby's `\d` and `\s` match only ASCII digits and ASCII whitespace, and
so do the model's character classes.

Values are exact reals: `Coord` is either `Fin(r)` or `Inf`. `Inf`
stands for `Float::INFINITY`. The constructor's `Float()` coercions are
`Option<Coord>` inputs, where `None` means the coercion raised.

Two details of the code are easy to misread, and the model follows the
code in both:

- **The direction letter is required.** The degree/minute/second pattern
  `(?<dir>[NESW])\s*…` has no `?` after the letter group, so a token
  without a letter is not read by it.
- **A half may hold more than two pieces.** Nothing limits a half to two
  pieces. The code takes `minmax` over every piece that `split(/-+/)`
  produces, and so does the model.

## Model

| member | source | states |
|---|---|---|
| Token.MarkedNumber | lib/stanford/geo/coordinate.rb:9 | An optional `(?:(\d+)mark)?` group stays inside the text. It consumes nothing exactly when it reports no number. |
| Token.DmsAt | lib/stanford/geo/coordinate.rb:9 | A degree/minute/second match starts at a direction letter, and that letter is the match's `dir`. `TokenText.DmsAtText` and `TokenRead.DmsAtIff` tie it to the written forms of a token, in both directions. |
| Token.FindDms | lib/stanford/geo/coordinate.rb:9 | The unanchored search gives the leftmost position where the pattern matches. No position before it matches. When it finds nothing, no position matches. |
| Token.DecimalAt | lib/stanford/geo/coordinate.rb:10 | `\d+(?:[.]\d+)?` reads at least one character and stays inside the text. |
| Token.BareMatch | lib/stanford/geo/coordinate.rb:10 | A whole-text bare match has a direction letter and neither a minutes group nor a seconds group. `TokenText.BareTextValue` and `TokenRead.BareMatchIff` tie it to the written forms of a bare token, in both directions. |
| Token.CoordToDecimal | lib/stanford/geo/coordinate.rb:17-26 | The result is infinity exactly when neither alternative of the union matches. |
| TokenFacts.UnionOrder | lib/stanford/geo/coordinate.rb:8-26 | The engine tries both alternatives at position 0, then both at position 1, and so on. That order gives the same value as taking the leftmost degree/minute/second match if there is one, else the bare match: the value of those groups, or infinity. |
| TokenFacts.BareHasNoDegreeMark | lib/stanford/geo/coordinate.rb:10 | Text that the bare pattern matches contains no degree mark. So text that the bare pattern reads is never read by the other alternative. |
| TokenFacts.BareOnly | lib/stanford/geo/coordinate.rb:8-10 | Text that the bare pattern matches has no degree/minute/second match at any position, so the union reads it with the bare alternative. |
| TokenFacts.FirstDms | lib/stanford/geo/coordinate.rb:9 | A position where the degree/minute/second pattern matches, with no match before it, is the one the unanchored search finds, whatever follows it. |
| TokenFacts.DmsAtBefore | lib/stanford/geo/coordinate.rb:9 | Appending text that starts with a direction letter cannot create a degree/minute/second match at a position where there was none. |
| TokenFacts.NoDmsBefore | lib/stanford/geo/coordinate.rb:9 | Text with no degree/minute/second match keeps none at its own positions once text starting with a direction letter is appended. |
| TokenFacts.RunValueOfSlice | lib/stanford/geo/coordinate.rb:21 | A digit run read in place has the decimal value of its digits, as `to_f` gives it. |
| TokenFacts.RunFractionOfSlice | lib/stanford/geo/coordinate.rb:10 | The digits after the point, read in place, have the value of the fraction they spell. |
| Marks.MarkerSwap | lib/stanford/geo/coordinate.rb:9 | Replacing any degree, minute or second mark by another mark of its class leaves the result of `coord_to_decimal` unchanged. The classes are `° ⁰ º`, `ʹ '` and `ʺ "`. |
| TokenText.DmsAtText | lib/stanford/geo/coordinate.rb:9 | A token written at any position as letter, `\s` whitespace, degree digits, a degree mark, and optional marked minutes and seconds groups, and not followed by a digit, is matched there. The match holds exactly the letter and numbers it was written with. |
| TokenText.DmsTextValue | lib/stanford/geo/coordinate.rb:9-25 | Such a token, on its own, converts to degrees + minutes/60 + seconds/3600, negated for W and S. This holds for every choice of marks and every whitespace gap. |
| TokenText.DmsInText | lib/stanford/geo/coordinate.rb:9-25 | The same token converts to the same value with text around it: any text before it with no degree/minute/second match, and any text after it that does not start with a digit. |
| TokenText.BareTextValue | lib/stanford/geo/coordinate.rb:10-25 | A bare token is `\s` whitespace, a letter, whitespace, digits, an optional fraction and trailing whitespace. The bare pattern matches it with exactly its letter and number, and it converts to its number, negated for W and S. |
| TokenRead.DmsAtWritten | lib/stanford/geo/coordinate.rb:9-25 | Every degree/minute/second match, at any position, is a well-formed token written there followed by the rest of the text. The match reads that token's groups, so its value is the token's value. |
| TokenRead.DmsAtIff | lib/stanford/geo/coordinate.rb:9 | The degree/minute/second pattern matches at a position exactly when some well-formed token is written there. |
| TokenRead.BareMatchWritten | lib/stanford/geo/coordinate.rb:10-25 | Every bare match is the whole text written as a well-formed bare token. The match reads that token's letter and number, so its value is the token's value. |
| TokenRead.BareMatchIff | lib/stanford/geo/coordinate.rb:10 | The bare pattern matches exactly the texts that are a well-formed bare token. |
| Cleaner.Capture | lib/stanford/geo/coordinate.rb:31 | The capture found is a non-empty span of the text. |
| Cleaner.CaptureIsPreferred | lib/stanford/geo/coordinate.rb:31 | The capture found is the match that a backtracking engine prefers among all matches of `^\(?([^)]+)\)?\.?$`. There is no capture exactly when the pattern has no match. |
| Cleaner.Clean | lib/stanford/geo/coordinate.rb:30-33 | Text that does not match comes back unchanged. Otherwise the result is non-empty and holds no `)`. |
| Cleaner.CleanIsPreferredCapture | lib/stanford/geo/coordinate.rb:30-33 | The cleaned value is the preferred match's capture group, or the original value when nothing matches. |
| Cleaner.MatchBeforeFirstParen | lib/stanford/geo/coordinate.rb:31 | Every match of the pattern ends its capture at or before the first `)`. If it ends earlier, the text holds no `)` at all. |
| Cleaner.CleanUnwraps | lib/stanford/geo/coordinate.rb:31-32 | Suppose `x` is non-empty and holds no `)`. Then `(x`, `(x)` and `(x).` all clean to `x`. |
| Cleaner.CleanKeepsPlain | lib/stanford/geo/coordinate.rb:31-32 | Suppose `x` does not start with `(` and holds no `)`. Then `x`, `x)` and `x).` all clean to `x`. |
| Cleaner.CleanKeepsUnmatched | lib/stanford/geo/coordinate.rb:32 | A value whose first `)` is followed by anything other than nothing or `.` comes back unchanged. |
| Cleaner.StopNeedsCloseParen | lib/stanford/geo/coordinate.rb:31-32 | A final `.` is removed only after a `)`: `x.` comes back as `x.`. A lone `(` is stripped: `(x` cleans to `x`. |
| DashSplit.SplitDashes | lib/stanford/geo/coordinate.rb:39-40 | No field of `split(/-+/)` holds a dash. Every field after the first is non-empty, and so is the last field. Text that starts with a non-dash gives a first field that starts with that character. |
| DashSplit.SplitJoinRuns | lib/stanford/geo/coordinate.rb:39-40 | Take dash-free fields in which only the first may be empty, but never the last. Join them with non-empty dash runs of any lengths and add any trailing dash run. Splitting the result gives back exactly those fields. |
| DashSplit.SplitCovers | lib/stanford/geo/coordinate.rb:39-40 | Every text is its own fields joined by non-empty dash runs, followed by a trailing run of dashes. |
| DashSplit.SplitLast | lib/stanford/geo/coordinate.rb:39-40 | Trailing dashes leave no empty field at the end. |
| DashSplit.SplitOnlyDashes | lib/stanford/geo/coordinate.rb:39-40 | Text made only of dashes splits into no fields. |
| Coords.MinOf | lib/stanford/geo/coordinate.rb:39-40 | The first half of `minmax` is an element of the list that is no larger than any element. Infinity lies above every finite value. |
| Coords.MaxOf | lib/stanford/geo/coordinate.rb:39-40 | The second half of `minmax` is an element of the list that is no smaller than any element. |
| Coordinate.DashFromIff | lib/stanford/geo/coordinate.rb:36 | The recursive test used for `.+-+.+` holds exactly when a dash lies at or after the given index with at least one character after it. |
| Coordinate.LastSplitBelow | lib/stanford/geo/coordinate.rb:36 | The search returns the rightmost slash below the bound that leaves a well-formed east/west half before it and a well-formed north/south half after any whitespace. None is returned exactly when no such slash exists. |
| Coordinate.PatternSplits | lib/stanford/geo/coordinate.rb:36 | Every way the anchored bounds pattern can match, with whitespace around the slash, yields a valid slash position. |
| Coordinate.Halves | lib/stanford/geo/coordinate.rb:36 | No halves are found exactly when no slash can separate the two halves. Otherwise the slash found can, no later slash can, the text before it is an east/west half, and the text after the whitespace that follows it is a north/south half. |
| Coordinate.HalvesIsLongestLat | lib/stanford/geo/coordinate.rb:36 | The halves found are a match of the bounds pattern whose `lat` is at least as long as in any other match. This is the match the greedy backtracking engine reports. No halves are found exactly when the pattern has no match. |
| Coordinate.Convert | lib/stanford/geo/coordinate.rb:39-40 | `map { coord_to_decimal }` keeps the number of pieces and converts each piece in place. |
| Coordinate.HalfHasPieces | lib/stanford/geo/coordinate.rb:39-40 | A half that the pattern accepts splits into at least one piece, so `minmax` always has an element. |
| Coordinate.ParseBounds | lib/stanford/geo/coordinate.rb:35-42 | All four bounds are nil exactly when the cleaned text does not match the pattern. Otherwise all four are present. The x bounds are the least and greatest converted pieces of the east/west half, and the y bounds those of the north/south half. |
| Coordinate.Parse | lib/stanford/geo/coordinate.rb:44-46 | The object has empty bounds exactly when the pattern does not match. Otherwise min x ≤ max x and min y ≤ max y. |
| Coordinate.ParseUnmatched | lib/stanford/geo/coordinate.rb:37-54 | Text that the bounds pattern cannot match gives nil bounds. The constructor turns these into an empty object, which is not valid. |
| Coordinate.ValidIffPiecesInRange | lib/stanford/geo/coordinate.rb:36-81 | A parsed statement is valid exactly when the pattern matches, every converted piece of the east/west half lies in -180..180, and every converted piece of the north/south half lies in -90..90. |
| Coordinate.UnreadableLongitudeInvalid | lib/stanford/geo/coordinate.rb:19-81 | A piece of the east/west half that neither token pattern reads makes max x infinite, and the object invalid. |
| Coordinate.UnreadableLatitudeInvalid | lib/stanford/geo/coordinate.rb:19-81 | A piece of the north/south half that neither token pattern reads makes max y infinite, and the object invalid. |
| Coordinate.ParseUnwraps | lib/stanford/geo/coordinate.rb:30-46 | Take a statement that holds no `)` and does not start with `(`. Prefixing `(` and following it with nothing, `)` or `).` does not change what it parses to. Following it with `)` or `).` alone does not change it either. |
| Coordinate.TwoPieces | lib/stanford/geo/coordinate.rb:39 | `a`, a dash run, then `b` splits into exactly `[a, b]`, whatever the run's length. |
| Coordinate.MinMaxOfTwo | lib/stanford/geo/coordinate.rb:39-40 | `minmax` of two values is their smaller and larger value. |
| Coordinate.ParseFourTokens | lib/stanford/geo/coordinate.rb:35-46 | A statement `a-…-b/c-…-d` with dash runs of any length has x bounds equal to the min and max of the values of `a` and `b`, and y bounds equal to those of `c` and `d`, whichever order each pair is written in. |
| Rectangle.New | lib/stanford/geo/coordinate.rb:48-54 | The bounds are present exactly when all four coercions succeed, and they then hold the coerced values. |
| Rectangle.Valid | lib/stanford/geo/coordinate.rb:71-81 | A valid object has all four bounds, all finite, with both x bounds in -180..180 and both y bounds in -90..90. |
| Rectangle.AsBbox | lib/stanford/geo/coordinate.rb:64-81 | There is output exactly when the object is valid. The output is four numbers in the order min x, min y, max x, max y. Rebuilding an object from them gives back the same bounds, and every number lies in -180..180. |
| Rectangle.AsEnvelope | lib/stanford/geo/coordinate.rb:57-61 | There is output exactly when the object is valid. The output is four numbers in the order min x, max x, max y, min y, and rebuilding from them gives back the same bounds. |
| Rectangle.EnvelopeReordersBbox | lib/stanford/geo/coordinate.rb:57-68 | The two outputs exist together, and they hold the same four numbers permuted. |
| Rectangle.EmptyHasNoOutput | lib/stanford/geo/coordinate.rb:58-72 | An object with empty bounds is not valid and has neither output. |
| Rectangle.ValidIgnoresOrder | lib/stanford/geo/coordinate.rb:71-81 | Validity checks only the ranges. Swapping the min and max bounds keeps a valid object valid. |
| Rectangle.BboxText | lib/stanford/geo/coordinate.rb:64-68 | There is bbox text exactly when the object is valid. |
| Rectangle.EnvelopeText | lib/stanford/geo/coordinate.rb:57-61 | There is envelope text exactly when the object is valid. |
| Rectangle.BboxTextFields | lib/stanford/geo/coordinate.rb:67 | When the rendering of a number holds no space, the bbox text splits at spaces into the four rendered numbers, in bbox order. |
| Rectangle.EnvelopeTextFields | lib/stanford/geo/coordinate.rb:60 | When the rendering holds no comma, the envelope text is `ENVELOPE(` + mid + `)`. Splitting mid at commas gives the four rendered numbers in envelope order, each after the first led by one space. |
| Examples.WellFormedValid | spec/stanford/geo/coordinate_spec.rb:6 | `W 123°23ʹ16ʺ--W 122°31ʹ22ʺ/N 39°23ʹ57ʺ--N 38°17ʹ53ʺ`, without parentheses, parses to a valid object. |
| Examples.OutOfRangeInvalid | spec/stanford/geo/coordinate_spec.rb:10 | `W80°--E100°/N487°--S42°` parses to bounds, and they are not valid. |
| Examples.MisplacedSlashInvalid | spec/stanford/geo/coordinate_spec.rb:14 | `(E29°--E35/°S12°--S16°).` has no slash that splits it into two halves, so it parses to empty bounds. |
| Examples.UnparseableHasNoOutput | spec/stanford/geo/coordinate_spec.rb:19-27 | `x` parses to empty bounds, with neither bbox nor envelope output. |
| Examples.ConstructorCases | spec/stanford/geo/coordinate_spec.rb:31-41 | Non-numeric input gives an invalid object. So does input out of range. The bounds -180, -90, 180, 90 give a valid one. |
| Examples.DegreesMinutesSeconds | spec/stanford/geo/coordinate_spec.rb:46-47 | The wrapped degree/minute/second statement gives the bbox, and the envelope of line 73-74, of the exact sums that the expected floats approximate. |
| Examples.AsciiMarks | spec/stanford/geo/coordinate_spec.rb:48-49 | `E 10°03'00"--E 12°58'00"/N 45°00'00"--N 41°46'00"` gives bbox 10 + 3/60, 41 + 46/60, 12 + 58/60, 45, and the envelope of line 75-76. |
| Examples.SingleDashes | spec/stanford/geo/coordinate_spec.rb:50-51 | `E 8°41'-E 12°21'/N 46°04'-N 44°23'`, with single dashes and no seconds, gives bbox 8 + 41/60, 44 + 23/60, 12 + 21/60, 46 + 4/60, and the envelope of line 77-78. |
| Examples.SwappedBoundsReordered | spec/stanford/geo/coordinate_spec.rb:52-53 | `(E17°--E11°/N14°--N18°).` gives bbox 11 14 17 18, so the bounds are put in order. The same statement gives envelope 11, 17, 18, 14, as line 79-80 expects. |
| Examples.SuperscriptZero | spec/stanford/geo/coordinate_spec.rb:54-55 | `(W 170⁰--E 55⁰/N 40⁰--S 36⁰).` gives bbox -170 -36 55 40 and the envelope of line 81-82. |
| Examples.DashRunLengths | spec/stanford/geo/coordinate_spec.rb:56-57 | `(W 0°-W 0°/S 90°---S 90°)` gives bbox 0 -90 0 -90 and the envelope of line 83-84: one dash and three dashes split alike. The expected `-0.0` is 0 here. |
| Examples.BareDecimals | spec/stanford/geo/coordinate_spec.rb:58-59 | `(W 030.6--E 068.1/N 041.7--S 042.4)` gives bbox -30.6 -42.4 68.1 41.7. |
| Examples.E17 | spec/stanford/geo/coordinate_spec.rb:52 | `E17°` converts to 17. |
| Examples.N487 | spec/stanford/geo/coordinate_spec.rb:10 | `N487°` converts to 487. |
| Examples.S42 | spec/stanford/geo/coordinate_spec.rb:10 | `S42°` converts to -42. |
| Examples.W123 | spec/stanford/geo/coordinate_spec.rb:46-47 | `W 123°23ʹ16ʺ` converts to -(123 + 23/60 + 16/3600). |
| Examples.N39 | spec/stanford/geo/coordinate_spec.rb:46-47 | `N 39°23ʹ57ʺ` converts to 39 + 23/60 + 57/3600. |
| Examples.E10m03 | spec/stanford/geo/coordinate_spec.rb:48 | `E 10°03'00"`, with ASCII marks, converts to 10 + 3/60. |
| Examples.E8m41 | spec/stanford/geo/coordinate_spec.rb:50 | `E 8°41'`, with minutes and no seconds, converts to 8 + 41/60. |
| Examples.W170 | spec/stanford/geo/coordinate_spec.rb:54 | `W 170⁰`, marked with a superscript zero, converts to -170. |
| Examples.W0 | spec/stanford/geo/coordinate_spec.rb:56 | `W 0°` converts to 0. |
| Examples.W30p6 | spec/stanford/geo/coordinate_spec.rb:58 | The bare token `W 030.6` converts to -30.6. |

## Left out

- **Float arithmetic and rendering.** Ruby's `to_f` and its float `+`,
  `/` and `*` are modelled as exact real arithmetic. Float rounding is not
  modelled, so the model's numbers are the exact values that the test
  file's floats approximate.
  - The model does not produce `-0.0`: `W 0°` is plain 0.
  - A digit run too long for a float does not overflow to infinity.
- **Float rendering in string interpolation.** Float's `to_s` is a
  parameter (`show`) of `Rectangle.BboxText` and `Rectangle.EnvelopeText`.
- **Line breaks.** `^`, `$` and `\Z` are read as the ends of the whole
  text. Input that contains line breaks, where these anchors also match at
  line boundaries, is outside the model.
- **Duplicate named groups.** `COORD_TO_DECIMAL_REGEX` has duplicate
  names across the two alternatives. The model reads the groups of
  whichever alternative matched.
- Chars.DigitValue: gives 0 for a character that is not a digit, where
  the Ruby class never converts one. It is only ever applied inside runs of
  ASCII digits.
- **`Float()` coercion.** The coercion of `initialize`'s keyword
  arguments, including Ruby's string-to-float grammar and its
  `TypeError` and `ArgumentError`, is not modelled. Each argument is given
  either as the coerced value or as a failed coercion.
- **Mutable state.** `attr_reader :bounds` and the object's mutable state
  are not modelled. An object is its immutable `Rect` value.
- **Outside the class.** `lib/stanford/geo.rb` only loads the gem's version
  file and the class, and declares an unused `Error` class, so it is not
  part of this model.
