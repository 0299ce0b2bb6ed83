/** The cases of the repository's test file, stated against the model.
    Numbers are exact: where the test expects a float rendering such as
    `-123.38777777777779`, the model holds the exact sum of degrees, minutes
    and seconds that the float approximates. */
module Examples {
  import opened Options
  import opened Chars
  import opened Coords
  import opened Token
  import opened TokenText
  import opened DashSplit
  import opened Rectangle
  import opened Coordinate

  /** Degree sign with the modifier-letter prime and double prime. */
  const Primes := Marks('\U{00B0}', '\U{02B9}', '\U{02BA}')

  /** Degree sign with the ASCII apostrophe and quotation mark. */
  const Ascii := Marks('\U{00B0}', '\'', '"')

  /** Superscript zero with the modifier-letter prime and double prime. */
  const Superscript := Marks('\U{2070}', '\U{02B9}', '\U{02BA}')

  /** The value of a three-digit run. */
  lemma ThreeDigits(ds: string)
    requires |ds| == 3 && AllDigits(ds)
    ensures DigitsValue(ds) == 100 * DigitValue(ds[0]) + 10 * DigitValue(ds[1]) + DigitValue(ds[2])
  {
    var init := ds[..2];
    assert init[..1] == ds[..1] && init[1] == ds[1];
    assert AllDigits(ds[..1]) && AllDigits(init);
    assert DigitsValue(ds[..1]) == DigitValue(ds[0]) by {
      assert ds[..1][..0] == [];
    }
    assert DigitsValue(init) == 10 * DigitValue(ds[0]) + DigitValue(ds[1]);
  }

  /** A written degree token reads back as the value it was written with. */
  lemma ReadsAs(s: string, t: Dms, mk: Marks, v: real)
    requires WellFormedDms(t, mk) && DmsText(t, mk) == s && DmsValue(t) == v
    ensures CoordToDecimal(s) == Fin(v)
  {
    DmsTextValue(t, mk);
  }

  /** A written bare token reads back as the value it was written with. */
  lemma BareReadsAs(s: string, t: BareNumber, v: real)
    requires WellFormedBare(t) && BareText(t) == s && BareValue(t) == v
    ensures CoordToDecimal(s) == Fin(v)
  {
    BareTextValue(t);
  }

  // The tokens of the first statement.

  lemma W123(s: string)
    requires s == "W 123\U{00B0}23\U{02B9}16\U{02BA}"
    ensures CoordToDecimal(s) == Fin(-(123.0 + 23.0 / 60.0 + 16.0 / 3600.0))
  {
    ThreeDigits("123");
    ReadsAs(s, Dms('W', " ", "123", Some("23"), Some("16")), Primes, -(123.0 + 23.0 / 60.0 + 16.0 / 3600.0));
  }

  lemma W122(s: string)
    requires s == "W 122\U{00B0}31\U{02B9}22\U{02BA}"
    ensures CoordToDecimal(s) == Fin(-(122.0 + 31.0 / 60.0 + 22.0 / 3600.0))
  {
    ThreeDigits("122");
    ReadsAs(s, Dms('W', " ", "122", Some("31"), Some("22")), Primes, -(122.0 + 31.0 / 60.0 + 22.0 / 3600.0));
  }

  lemma N39(s: string)
    requires s == "N 39\U{00B0}23\U{02B9}57\U{02BA}"
    ensures CoordToDecimal(s) == Fin(39.0 + 23.0 / 60.0 + 57.0 / 3600.0)
  {
    ReadsAs(s, Dms('N', " ", "39", Some("23"), Some("57")), Primes, 39.0 + 23.0 / 60.0 + 57.0 / 3600.0);
  }

  lemma N38(s: string)
    requires s == "N 38\U{00B0}17\U{02B9}53\U{02BA}"
    ensures CoordToDecimal(s) == Fin(38.0 + 17.0 / 60.0 + 53.0 / 3600.0)
  {
    ReadsAs(s, Dms('N', " ", "38", Some("17"), Some("53")), Primes, 38.0 + 17.0 / 60.0 + 53.0 / 3600.0);
  }

  // Tokens with ASCII minute and second marks.

  lemma E10m03(s: string)
    requires s == "E 10\U{00B0}03'00\""
    ensures CoordToDecimal(s) == Fin(10.0 + 3.0 / 60.0)
  {
    ReadsAs(s, Dms('E', " ", "10", Some("03"), Some("00")), Ascii, 10.0 + 3.0 / 60.0);
  }

  lemma E12m58(s: string)
    requires s == "E 12\U{00B0}58'00\""
    ensures CoordToDecimal(s) == Fin(12.0 + 58.0 / 60.0)
  {
    ReadsAs(s, Dms('E', " ", "12", Some("58"), Some("00")), Ascii, 12.0 + 58.0 / 60.0);
  }

  lemma N45m00(s: string)
    requires s == "N 45\U{00B0}00'00\""
    ensures CoordToDecimal(s) == Fin(45.0)
  {
    ReadsAs(s, Dms('N', " ", "45", Some("00"), Some("00")), Ascii, 45.0);
  }

  lemma N41m46(s: string)
    requires s == "N 41\U{00B0}46'00\""
    ensures CoordToDecimal(s) == Fin(41.0 + 46.0 / 60.0)
  {
    ReadsAs(s, Dms('N', " ", "41", Some("46"), Some("00")), Ascii, 41.0 + 46.0 / 60.0);
  }

  // Tokens with minutes and no seconds.

  lemma E8m41(s: string)
    requires s == "E 8\U{00B0}41'"
    ensures CoordToDecimal(s) == Fin(8.0 + 41.0 / 60.0)
  {
    ReadsAs(s, Dms('E', " ", "8", Some("41"), None), Ascii, 8.0 + 41.0 / 60.0);
  }

  lemma E12m21(s: string)
    requires s == "E 12\U{00B0}21'"
    ensures CoordToDecimal(s) == Fin(12.0 + 21.0 / 60.0)
  {
    ReadsAs(s, Dms('E', " ", "12", Some("21"), None), Ascii, 12.0 + 21.0 / 60.0);
  }

  lemma N46m04(s: string)
    requires s == "N 46\U{00B0}04'"
    ensures CoordToDecimal(s) == Fin(46.0 + 4.0 / 60.0)
  {
    ReadsAs(s, Dms('N', " ", "46", Some("04"), None), Ascii, 46.0 + 4.0 / 60.0);
  }

  lemma N44m23(s: string)
    requires s == "N 44\U{00B0}23'"
    ensures CoordToDecimal(s) == Fin(44.0 + 23.0 / 60.0)
  {
    ReadsAs(s, Dms('N', " ", "44", Some("23"), None), Ascii, 44.0 + 23.0 / 60.0);
  }

  // Whole degrees, no gap after the letter.

  lemma E17(s: string)
    requires s == "E17\U{00B0}"
    ensures CoordToDecimal(s) == Fin(17.0)
  {
    ReadsAs(s, Dms('E', "", "17", None, None), Primes, 17.0);
  }

  lemma E11(s: string)
    requires s == "E11\U{00B0}"
    ensures CoordToDecimal(s) == Fin(11.0)
  {
    ReadsAs(s, Dms('E', "", "11", None, None), Primes, 11.0);
  }

  lemma N14(s: string)
    requires s == "N14\U{00B0}"
    ensures CoordToDecimal(s) == Fin(14.0)
  {
    ReadsAs(s, Dms('N', "", "14", None, None), Primes, 14.0);
  }

  lemma N18(s: string)
    requires s == "N18\U{00B0}"
    ensures CoordToDecimal(s) == Fin(18.0)
  {
    ReadsAs(s, Dms('N', "", "18", None, None), Primes, 18.0);
  }

  lemma N487(s: string)
    requires s == "N487\U{00B0}"
    ensures CoordToDecimal(s) == Fin(487.0)
  {
    ThreeDigits("487");
    ReadsAs(s, Dms('N', "", "487", None, None), Primes, 487.0);
  }

  lemma S42(s: string)
    requires s == "S42\U{00B0}"
    ensures CoordToDecimal(s) == Fin(-42.0)
  {
    ReadsAs(s, Dms('S', "", "42", None, None), Primes, -42.0);
  }

  // Whole degrees marked with a superscript zero.

  lemma W170(s: string)
    requires s == "W 170\U{2070}"
    ensures CoordToDecimal(s) == Fin(-170.0)
  {
    ThreeDigits("170");
    ReadsAs(s, Dms('W', " ", "170", None, None), Superscript, -170.0);
  }

  lemma E55(s: string)
    requires s == "E 55\U{2070}"
    ensures CoordToDecimal(s) == Fin(55.0)
  {
    ReadsAs(s, Dms('E', " ", "55", None, None), Superscript, 55.0);
  }

  lemma N40(s: string)
    requires s == "N 40\U{2070}"
    ensures CoordToDecimal(s) == Fin(40.0)
  {
    ReadsAs(s, Dms('N', " ", "40", None, None), Superscript, 40.0);
  }

  lemma S36(s: string)
    requires s == "S 36\U{2070}"
    ensures CoordToDecimal(s) == Fin(-36.0)
  {
    ReadsAs(s, Dms('S', " ", "36", None, None), Superscript, -36.0);
  }

  // The poles and the meridian.

  lemma W0(s: string)
    requires s == "W 0\U{00B0}"
    ensures CoordToDecimal(s) == Fin(0.0)
  {
    ReadsAs(s, Dms('W', " ", "0", None, None), Primes, 0.0);
  }

  lemma S90(s: string)
    requires s == "S 90\U{00B0}"
    ensures CoordToDecimal(s) == Fin(-90.0)
  {
    ReadsAs(s, Dms('S', " ", "90", None, None), Primes, -90.0);
  }

  // Bare decimal tokens with leading zeros.

  lemma W30p6(s: string)
    requires s == "W 030.6"
    ensures CoordToDecimal(s) == Fin(-30.6)
  {
    ThreeDigits("030");
    BareReadsAs(s, BareNumber("", 'W', " ", "030", Some("6"), ""), -30.6);
  }

  lemma E68p1(s: string)
    requires s == "E 068.1"
    ensures CoordToDecimal(s) == Fin(68.1)
  {
    ThreeDigits("068");
    BareReadsAs(s, BareNumber("", 'E', " ", "068", Some("1"), ""), 68.1);
  }

  lemma N41p7(s: string)
    requires s == "N 041.7"
    ensures CoordToDecimal(s) == Fin(41.7)
  {
    ThreeDigits("041");
    BareReadsAs(s, BareNumber("", 'N', " ", "041", Some("7"), ""), 41.7);
  }

  lemma S42p4(s: string)
    requires s == "S 042.4"
    ensures CoordToDecimal(s) == Fin(-42.4)
  {
    ThreeDigits("042");
    BareReadsAs(s, BareNumber("", 'S', " ", "042", Some("4"), ""), -42.4);
  }

  /** Regrouping a nine-part concatenation. */
  lemma Regroup(p: string, a: string, x: string, b: string, sl: string, c: string, y: string, d: string, t: string)
    ensures p + a + x + b + sl + c + y + d + t == p + (a + (x + b) + (sl + (c + (y + d)))) + t
  {
    var cd := c + (y + d);
    assert c + y + d == cd;
    var u := sl + cd;
    var pab := p + a + x + b;
    assert pab + sl + c + y + d == pab + u;
    var ab := a + (x + b);
    assert pab == p + ab;
    assert p + ab + u == p + (ab + u);
  }

  /** Regrouping a seven-part concatenation. */
  lemma RegroupPlain(a: string, x: string, b: string, sl: string, c: string, y: string, d: string)
    ensures a + x + b + sl + c + y + d == a + (x + b) + (sl + (c + (y + d)))
  {
    var cd := c + (y + d);
    assert c + y + d == cd;
    var ab := a + x + b;
    assert ab + sl + c + y + d == ab + (sl + cd);
    assert ab == a + (x + b);
  }

  /** The statement built from four tokens holds no `)` when they hold none. */
  lemma StatementFree(a: string, n: nat, b: string, c: string, m: nat, d: string)
    requires Free(a, ')') && Free(b, ')') && Free(c, ')') && Free(d, ')')
    ensures Free(a + (Dashes(n) + b) + ("/" + (c + (Dashes(m) + d))), ')')
  {
    FreeJoin(Dashes(n), b, "", ')');
    FreeJoin(c, Dashes(m), d, ')');
    FreeJoin("/", c + (Dashes(m) + d), "", ')');
    assert Dashes(n) + b + "" == Dashes(n) + b;
    assert "/" + (c + (Dashes(m) + d)) + "" == "/" + (c + (Dashes(m) + d));
    FreeJoin(a, Dashes(n) + b, "/" + (c + (Dashes(m) + d)), ')');
    assert a + (Dashes(n) + b) + ("/" + (c + (Dashes(m) + d)))
      == a + ((Dashes(n) + b) + ("/" + (c + (Dashes(m) + d))));
  }

  /** `ParseUnwraps` for a wrapped text given by name. */
  lemma UnwrapTo(value: string, s: string, tail: string, v: Rect)
    requires |value| > 0 && value[0] != '(' && Free(value, ')')
    requires tail == "" || tail == ")" || tail == ")."
    requires Parse(value) == v && s == "(" + value + tail
    ensures Parse(s) == v
  {
    ParseUnwraps(value, tail);
  }

  /** Four tokens, `n` dashes between the two of the first half, one slash,
      and `m` dashes between the two of the second half. */
  lemma PlainFourTokens(a: string, n: nat, b: string, c: string, m: nat, d: string)
    requires FourTokens(a, b, c, d) && n > 0 && m > 0
    ensures Parse(a + Dashes(n) + b + "/" + c + Dashes(m) + d) == Bounds(
      Min(CoordToDecimal(a), CoordToDecimal(b)), Min(CoordToDecimal(c), CoordToDecimal(d)),
      Max(CoordToDecimal(a), CoordToDecimal(b)), Max(CoordToDecimal(c), CoordToDecimal(d)))
  {
    ParseFourTokens(a, n, b, c, m, d);
    RegroupPlain(a, Dashes(n), b, "/", c, Dashes(m), d);
  }

  /** The same statement wrapped in parentheses with the given tail. */
  lemma WrappedFourTokens(a: string, n: nat, b: string, c: string, m: nat, d: string, tail: string)
    requires FourTokens(a, b, c, d) && n > 0 && m > 0
    requires tail == "" || tail == ")" || tail == ")."
    ensures Parse("(" + a + Dashes(n) + b + "/" + c + Dashes(m) + d + tail) == Bounds(
      Min(CoordToDecimal(a), CoordToDecimal(b)), Min(CoordToDecimal(c), CoordToDecimal(d)),
      Max(CoordToDecimal(a), CoordToDecimal(b)), Max(CoordToDecimal(c), CoordToDecimal(d)))
  {
    ParseFourTokens(a, n, b, c, m, d);
    var value := a + (Dashes(n) + b) + ("/" + (c + (Dashes(m) + d)));
    StatementFree(a, n, b, c, m, d);
    assert value[0] == a[0];
    Regroup("(", a, Dashes(n), b, "/", c, Dashes(m), d, tail);
    UnwrapTo(value, "(" + a + Dashes(n) + b + "/" + c + Dashes(m) + d + tail, tail, Parse(value));
  }

  /** The well-formed statement of the validity cases, without parentheses. */
  lemma WellFormedValid(a: string, b: string, c: string, d: string)
    requires a == "W 123\U{00B0}23\U{02B9}16\U{02BA}" && b == "W 122\U{00B0}31\U{02B9}22\U{02BA}"
    requires c == "N 39\U{00B0}23\U{02B9}57\U{02BA}" && d == "N 38\U{00B0}17\U{02B9}53\U{02BA}"
    ensures Valid(Parse(a + "--" + b + "/" + c + "--" + d))
  {
    WellFormedValidStatement(a, b, c, d);
    W123(a); W122(b); N39(c); N38(d);
  }

  lemma WellFormedValidStatement(a: string, b: string, c: string, d: string)
    requires a == "W 123\U{00B0}23\U{02B9}16\U{02BA}" && b == "W 122\U{00B0}31\U{02B9}22\U{02BA}"
    requires c == "N 39\U{00B0}23\U{02B9}57\U{02BA}" && d == "N 38\U{00B0}17\U{02B9}53\U{02BA}"
    ensures Parse(a + "--" + b + "/" + c + "--" + d) == Bounds(
      Min(CoordToDecimal(a), CoordToDecimal(b)), Min(CoordToDecimal(c), CoordToDecimal(d)),
      Max(CoordToDecimal(a), CoordToDecimal(b)), Max(CoordToDecimal(c), CoordToDecimal(d)))
  {
    assert Dashes(2) == "--";
    PlainFourTokens(a, 2, b, c, 2, d);
  }

  /** The first bbox and envelope case, with exact degrees, minutes and seconds. */
  lemma DegreesMinutesSeconds(a: string, b: string, c: string, d: string)
    requires a == "W 123\U{00B0}23\U{02B9}16\U{02BA}" && b == "W 122\U{00B0}31\U{02B9}22\U{02BA}"
    requires c == "N 39\U{00B0}23\U{02B9}57\U{02BA}" && d == "N 38\U{00B0}17\U{02B9}53\U{02BA}"
    ensures AsBbox(Parse("(" + a + "--" + b + "/" + c + "--" + d + ")"))
      == Some([-(123.0 + 23.0 / 60.0 + 16.0 / 3600.0), 38.0 + 17.0 / 60.0 + 53.0 / 3600.0,
               -(122.0 + 31.0 / 60.0 + 22.0 / 3600.0), 39.0 + 23.0 / 60.0 + 57.0 / 3600.0])
    ensures AsEnvelope(Parse("(" + a + "--" + b + "/" + c + "--" + d + ")"))
      == Some([-(123.0 + 23.0 / 60.0 + 16.0 / 3600.0), -(122.0 + 31.0 / 60.0 + 22.0 / 3600.0),
               39.0 + 23.0 / 60.0 + 57.0 / 3600.0, 38.0 + 17.0 / 60.0 + 53.0 / 3600.0])
  {
    DegreesMinutesSecondsStatement(a, b, c, d);
    W123(a); W122(b); N39(c); N38(d);
  }

  lemma DegreesMinutesSecondsStatement(a: string, b: string, c: string, d: string)
    requires a == "W 123\U{00B0}23\U{02B9}16\U{02BA}" && b == "W 122\U{00B0}31\U{02B9}22\U{02BA}"
    requires c == "N 39\U{00B0}23\U{02B9}57\U{02BA}" && d == "N 38\U{00B0}17\U{02B9}53\U{02BA}"
    ensures Parse("(" + a + "--" + b + "/" + c + "--" + d + ")") == Bounds(
      Min(CoordToDecimal(a), CoordToDecimal(b)), Min(CoordToDecimal(c), CoordToDecimal(d)),
      Max(CoordToDecimal(a), CoordToDecimal(b)), Max(CoordToDecimal(c), CoordToDecimal(d)))
  {
    assert Dashes(2) == "--";
    WrappedFourTokens(a, 2, b, c, 2, d, ")");
  }

  /** ASCII minute and second marks, seconds all zero. */
  lemma AsciiMarks(a: string, b: string, c: string, d: string)
    requires a == "E 10\U{00B0}03'00\"" && b == "E 12\U{00B0}58'00\""
    requires c == "N 45\U{00B0}00'00\"" && d == "N 41\U{00B0}46'00\""
    ensures AsBbox(Parse(a + "--" + b + "/" + c + "--" + d))
      == Some([10.0 + 3.0 / 60.0, 41.0 + 46.0 / 60.0, 12.0 + 58.0 / 60.0, 45.0])
    ensures AsEnvelope(Parse(a + "--" + b + "/" + c + "--" + d))
      == Some([10.0 + 3.0 / 60.0, 12.0 + 58.0 / 60.0, 45.0, 41.0 + 46.0 / 60.0])
  {
    AsciiMarksStatement(a, b, c, d);
    E10m03(a); E12m58(b); N45m00(c); N41m46(d);
  }

  lemma AsciiMarksStatement(a: string, b: string, c: string, d: string)
    requires a == "E 10\U{00B0}03'00\"" && b == "E 12\U{00B0}58'00\""
    requires c == "N 45\U{00B0}00'00\"" && d == "N 41\U{00B0}46'00\""
    ensures Parse(a + "--" + b + "/" + c + "--" + d) == Bounds(
      Min(CoordToDecimal(a), CoordToDecimal(b)), Min(CoordToDecimal(c), CoordToDecimal(d)),
      Max(CoordToDecimal(a), CoordToDecimal(b)), Max(CoordToDecimal(c), CoordToDecimal(d)))
  {
    assert Dashes(2) == "--";
    PlainFourTokens(a, 2, b, c, 2, d);
  }

  /** Single dashes between the tokens, minutes without seconds. */
  lemma SingleDashes(a: string, b: string, c: string, d: string)
    requires a == "E 8\U{00B0}41'" && b == "E 12\U{00B0}21'"
    requires c == "N 46\U{00B0}04'" && d == "N 44\U{00B0}23'"
    ensures AsBbox(Parse(a + "-" + b + "/" + c + "-" + d))
      == Some([8.0 + 41.0 / 60.0, 44.0 + 23.0 / 60.0, 12.0 + 21.0 / 60.0, 46.0 + 4.0 / 60.0])
    ensures AsEnvelope(Parse(a + "-" + b + "/" + c + "-" + d))
      == Some([8.0 + 41.0 / 60.0, 12.0 + 21.0 / 60.0, 46.0 + 4.0 / 60.0, 44.0 + 23.0 / 60.0])
  {
    SingleDashesStatement(a, b, c, d);
    E8m41(a); E12m21(b); N46m04(c); N44m23(d);
  }

  lemma SingleDashesStatement(a: string, b: string, c: string, d: string)
    requires a == "E 8\U{00B0}41'" && b == "E 12\U{00B0}21'"
    requires c == "N 46\U{00B0}04'" && d == "N 44\U{00B0}23'"
    ensures Parse(a + "-" + b + "/" + c + "-" + d) == Bounds(
      Min(CoordToDecimal(a), CoordToDecimal(b)), Min(CoordToDecimal(c), CoordToDecimal(d)),
      Max(CoordToDecimal(a), CoordToDecimal(b)), Max(CoordToDecimal(c), CoordToDecimal(d)))
  {
    assert Dashes(1) == "-";
    PlainFourTokens(a, 1, b, c, 1, d);
  }

  /** Bounds written largest first are put in order. */
  lemma SwappedBoundsReordered(a: string, b: string, c: string, d: string)
    requires a == "E17\U{00B0}" && b == "E11\U{00B0}"
    requires c == "N14\U{00B0}" && d == "N18\U{00B0}"
    ensures AsBbox(Parse("(" + a + "--" + b + "/" + c + "--" + d + ")."))
      == Some([11.0, 14.0, 17.0, 18.0])
    ensures AsEnvelope(Parse("(" + a + "--" + b + "/" + c + "--" + d + ")."))
      == Some([11.0, 17.0, 18.0, 14.0])
  {
    SwappedBoundsReorderedStatement(a, b, c, d);
    E17(a); E11(b); N14(c); N18(d);
  }

  lemma SwappedBoundsReorderedStatement(a: string, b: string, c: string, d: string)
    requires a == "E17\U{00B0}" && b == "E11\U{00B0}"
    requires c == "N14\U{00B0}" && d == "N18\U{00B0}"
    ensures Parse("(" + a + "--" + b + "/" + c + "--" + d + ").") == Bounds(
      Min(CoordToDecimal(a), CoordToDecimal(b)), Min(CoordToDecimal(c), CoordToDecimal(d)),
      Max(CoordToDecimal(a), CoordToDecimal(b)), Max(CoordToDecimal(c), CoordToDecimal(d)))
  {
    assert Dashes(2) == "--";
    WrappedFourTokens(a, 2, b, c, 2, d, ").");
  }

  /** A superscript zero serves as the degree mark. */
  lemma SuperscriptZero(a: string, b: string, c: string, d: string)
    requires a == "W 170\U{2070}" && b == "E 55\U{2070}"
    requires c == "N 40\U{2070}" && d == "S 36\U{2070}"
    ensures AsBbox(Parse("(" + a + "--" + b + "/" + c + "--" + d + ")."))
      == Some([-170.0, -36.0, 55.0, 40.0])
    ensures AsEnvelope(Parse("(" + a + "--" + b + "/" + c + "--" + d + ")."))
      == Some([-170.0, 55.0, 40.0, -36.0])
  {
    SuperscriptZeroStatement(a, b, c, d);
    W170(a); E55(b); N40(c); S36(d);
  }

  lemma SuperscriptZeroStatement(a: string, b: string, c: string, d: string)
    requires a == "W 170\U{2070}" && b == "E 55\U{2070}"
    requires c == "N 40\U{2070}" && d == "S 36\U{2070}"
    ensures Parse("(" + a + "--" + b + "/" + c + "--" + d + ").") == Bounds(
      Min(CoordToDecimal(a), CoordToDecimal(b)), Min(CoordToDecimal(c), CoordToDecimal(d)),
      Max(CoordToDecimal(a), CoordToDecimal(b)), Max(CoordToDecimal(c), CoordToDecimal(d)))
  {
    assert Dashes(2) == "--";
    WrappedFourTokens(a, 2, b, c, 2, d, ").");
  }

  /** One dash and three dashes split alike; west of zero is zero. */
  lemma DashRunLengths(a: string, b: string, c: string, d: string)
    requires a == "W 0\U{00B0}" && b == "W 0\U{00B0}"
    requires c == "S 90\U{00B0}" && d == "S 90\U{00B0}"
    ensures AsBbox(Parse("(" + a + "-" + b + "/" + c + "---" + d + ")"))
      == Some([0.0, -90.0, 0.0, -90.0])
    ensures AsEnvelope(Parse("(" + a + "-" + b + "/" + c + "---" + d + ")"))
      == Some([0.0, 0.0, -90.0, -90.0])
  {
    DashRunLengthsStatement(a, b, c, d);
    W0(a); W0(b); S90(c); S90(d);
  }

  lemma DashRunLengthsStatement(a: string, b: string, c: string, d: string)
    requires a == "W 0\U{00B0}" && b == "W 0\U{00B0}"
    requires c == "S 90\U{00B0}" && d == "S 90\U{00B0}"
    ensures Parse("(" + a + "-" + b + "/" + c + "---" + d + ")") == Bounds(
      Min(CoordToDecimal(a), CoordToDecimal(b)), Min(CoordToDecimal(c), CoordToDecimal(d)),
      Max(CoordToDecimal(a), CoordToDecimal(b)), Max(CoordToDecimal(c), CoordToDecimal(d)))
  {
    assert Dashes(1) == "-";
    assert Dashes(3) == "---";
    WrappedFourTokens(a, 1, b, c, 3, d, ")");
  }

  /** Bare decimal tokens with leading zeros. */
  lemma BareDecimals(a: string, b: string, c: string, d: string)
    requires a == "W 030.6" && b == "E 068.1"
    requires c == "N 041.7" && d == "S 042.4"
    ensures AsBbox(Parse("(" + a + "--" + b + "/" + c + "--" + d + ")"))
      == Some([-30.6, -42.4, 68.1, 41.7])
  {
    BareDecimalsStatement(a, b, c, d);
    W30p6(a); E68p1(b); N41p7(c); S42p4(d);
  }

  lemma BareDecimalsStatement(a: string, b: string, c: string, d: string)
    requires a == "W 030.6" && b == "E 068.1"
    requires c == "N 041.7" && d == "S 042.4"
    ensures Parse("(" + a + "--" + b + "/" + c + "--" + d + ")") == Bounds(
      Min(CoordToDecimal(a), CoordToDecimal(b)), Min(CoordToDecimal(c), CoordToDecimal(d)),
      Max(CoordToDecimal(a), CoordToDecimal(b)), Max(CoordToDecimal(c), CoordToDecimal(d)))
  {
    assert Dashes(2) == "--";
    WrappedFourTokens(a, 2, b, c, 2, d, ")");
  }

  /** A latitude beyond 90 degrees parses but is not valid. */
  lemma OutOfRangeInvalid(a: string, b: string, c: string, d: string)
    requires a == "W80\U{00B0}" && b == "E100\U{00B0}"
    requires c == "N487\U{00B0}" && d == "S42\U{00B0}"
    ensures Parse(a + "--" + b + "/" + c + "--" + d).Bounds? && !Valid(Parse(a + "--" + b + "/" + c + "--" + d))
  {
    OutOfRangeInvalidStatement(a, b, c, d);
    N487(c); S42(d);
  }

  lemma OutOfRangeInvalidStatement(a: string, b: string, c: string, d: string)
    requires a == "W80\U{00B0}" && b == "E100\U{00B0}"
    requires c == "N487\U{00B0}" && d == "S42\U{00B0}"
    ensures Parse(a + "--" + b + "/" + c + "--" + d) == Bounds(
      Min(CoordToDecimal(a), CoordToDecimal(b)), Min(CoordToDecimal(c), CoordToDecimal(d)),
      Max(CoordToDecimal(a), CoordToDecimal(b)), Max(CoordToDecimal(c), CoordToDecimal(d)))
  {
    assert Dashes(2) == "--";
    PlainFourTokens(a, 2, b, c, 2, d);
  }

  /** Text the bounds pattern cannot match gives no output at all. */
  lemma UnparseableHasNoOutput(s: string)
    requires s == "x"
    ensures Parse(s) == Empty
    ensures AsBbox(Parse(s)).None? && AsEnvelope(Parse(s)).None?
  {
    PlainIsClean(s);
    assert !SplitsAt(s, 0);
  }

  /** A value without any slash that separates two halves parses to
      empty bounds, with or without parentheses around it. */
  lemma UnsplittableEmpty(x: string, tail: string)
    requires |x| > 0 && x[0] != '(' && Free(x, ')')
    requires forall k :: 0 <= k < |x| ==> !SplitsAt(x, k)
    requires tail == "" || tail == ")" || tail == ")."
    ensures Parse("(" + x + tail) == Empty
  {
    PlainIsClean(x);
    assert LastSplitBelow(x, |x|).None?;
    ParseUnwraps(x, tail);
  }

  /** A slash followed by a degree sign instead of a direction letter
      leaves no way to cut the statement in two. */
  lemma MisplacedSlashInvalid(x: string)
    requires x == "E29\U{00B0}--E35/\U{00B0}S12\U{00B0}--S16\U{00B0}"
    ensures Parse("(" + x + ").") == Empty
  {
    MisplacedShape(x);
    MisplacedNoSplit(x);
    UnsplittableEmpty(x, ").");
  }

  lemma MisplacedShape(x: string)
    requires x == "E29\U{00B0}--E35/\U{00B0}S12\U{00B0}--S16\U{00B0}"
    ensures |x| > 0 && x[0] != '(' && Free(x, ')')
  {
  }

  lemma MisplacedNoSplit(x: string)
    requires x == "E29\U{00B0}--E35/\U{00B0}S12\U{00B0}--S16\U{00B0}"
    ensures forall k :: 0 <= k < |x| ==> !SplitsAt(x, k)
  {
    RunEndUnique(x, 10, Space, 10);
    assert !SplitsAt(x, 9);
    assert forall k :: 0 <= k < |x| && k != 9 ==> x[k] != '/';
  }

  /** The constructor cases of the test file. */
  lemma ConstructorCases()
    ensures Valid(New(Some(Fin(-180.0)), Some(Fin(-90.0)), Some(Fin(180.0)), Some(Fin(90.0))))
    ensures !Valid(New(Some(Fin(-1960.0)), Some(Fin(2860.0)), Some(Fin(4380.0)), Some(Fin(2300.0))))
    ensures !Valid(New(None, None, None, None))
  {
  }
}
