/** The complaint form of `urbano_mdr.py`: the photo extension whitelist,
    the locale-tolerant coordinate parser, the combined "lat lon" field and
    the decisions `enviar_formulario` takes before it stores a record.
    Coordinates are exact decimals with six places, held here as integers
    counting millionths of a degree. */
module Urbano {

  import opened Wrappers
  import opened Strings
  import opened Decimals

  // ---------------------------------------------------------------------
  // allowed_file
  // ---------------------------------------------------------------------

  /** ALLOWED_EXTENSIONS. */
  const AllowedExtensions: set<string> := {"png", "jpg", "jpeg", "gif", "webp"}

  /** `'.' in filename and filename.rsplit('.', 1)[1].lower() in ALLOWED_EXTENSIONS`. */
  function AllowedFile(filename: string): (b: bool)
    ensures b ==> '.' in filename
    ensures b ==> Lower(AfterLastDot(filename)) in AllowedExtensions
  {
    '.' in filename && Lower(AfterLastDot(filename)) in AllowedExtensions
  }

  /** The verdict depends only on the text after the last dot. */
  lemma AllowedFileLastDot(filename: string, k: nat)
    requires k < |filename| && filename[k] == '.' && '.' !in filename[k + 1..]
    ensures AllowedFile(filename) <==> Lower(filename[k + 1..]) in AllowedExtensions
  {
    var r := AfterLastDot(filename);
    assert |r| == |filename| - k - 1;
  }

  /** A name without a dot is refused. */
  lemma AllowedFileNeedsDot(filename: string)
    requires '.' !in filename
    ensures !AllowedFile(filename)
  {
  }

  lemma AllowedFileUpperCase()
    ensures AllowedFile("foto.JPG")
  {
    var f := "foto.JPG";
    assert f[4] == '.' && f[5..] == "JPG";
    AllowedFileLastDot(f, 4);
    assert Lower("JPG") == "jpg";
  }

  lemma AllowedFileOnlyLastDotCounts()
    ensures !AllowedFile("foto.png.exe")
  {
    var f := "foto.png.exe";
    assert f[8] == '.' && f[9..] == "exe";
    AllowedFileLastDot(f, 8);
    assert Lower("exe") == "exe";
  }

  // ---------------------------------------------------------------------
  // parse_coord
  // ---------------------------------------------------------------------

  const Minus: char := '\U{2212}'

  /** `s.replace(',', '.').replace('−', '-')`. */
  function Substitute(s: string): string {
    ReplaceAll(ReplaceAll(s, ",", "."), [Minus], "-")
  }

  /** The character each one stands for once substituted. */
  function Canonical(c: char): char {
    if c == ',' then '.' else if c == Minus then '-' else c
  }

  /** The substitution works character by character. */
  lemma SubstitutePointwise(s: string)
    ensures |Substitute(s)| == |s|
    ensures forall i :: 0 <= i < |s| ==> Substitute(s)[i] == Canonical(s[i])
  {
    ReplaceCharPointwise(s, ',', '.');
    ReplaceCharPointwise(ReplaceAll(s, ",", "."), Minus, '-');
  }

  /** `parse_coord(value)`: None for a missing, empty or blank value and for
      text that is not a finite decimal once `,` reads as `.` and U+2212 as
      `-`; otherwise the value rounded half-up to millionths. */
  function ParseCoord(value: Option<string>): (r: Option<int>)
    ensures value.None? || AllSpace(value.value) ==> r.None?
    ensures r.Some? ==> value.Some? && ParseFinite(Substitute(Strip(value.value))).Some?
  {
    if value.None? || value.value == [] then None
    else
      var s := Strip(value.value);
      if s == [] then None
      else
        QuantizeParsed(ParseFinite(Substitute(s)))
  }

  /** The quantized value of a parsed numeral; None for text that did not
      parse. */
  function QuantizeParsed(d: Option<Decimal>): Option<int> {
    match d
    case None => None
    case Some(d) => Quantize6(d)
  }

  /** A coordinate that is returned is the numeral rounded half-up to
      millionths: it lies within half a millionth of the input, with the
      input's sign, and has at most 28 digits. */
  lemma ParseCoordRounds(value: string)
    requires ParseCoord(Some(value)).Some?
    ensures var q := ParseCoord(Some(value)).value;
      var d := ParseFinite(Substitute(Strip(value))).value;
      && RoundsHalfUp(d.coefficient, d.fracDigits, Abs(q))
      && (q < 0 ==> d.negative) && (q > 0 ==> !d.negative)
      && Abs(q) < Overflow
  {
  }

  /** Text that is not a numeral after substitution is refused. */
  lemma ParseCoordInvalid(value: string)
    requires ParseFinite(Substitute(Strip(value))).None?
    ensures ParseCoord(Some(value)).None?
  {
  }

  /** The coordinate a numeral of the grammar denotes: its value rounded
      half-up to millionths, with its sign. */
  function Rounded(sign: string, ip: string, fp: string): int
    requires AllDigits(ip) && AllDigits(fp)
  {
    var m := RoundedMillionths(NumeralValue(sign, ip, fp));
    if sign == "-" then -(m as int) else m
  }

  /** A value that is not blank and whose stripped, substituted text is a
      numeral gives that numeral's coordinate, whenever its rounding fits
      the 28-digit context. */
  lemma ParseCoordValid(value: string, sign: string, ip: string, fp: string, dotted: bool)
    requires !AllSpace(value)
    requires Spells(Substitute(Strip(value)), sign, ip, fp, dotted)
    requires RoundedMillionths(NumeralValue(sign, ip, fp)) < Overflow
    ensures ParseCoord(Some(value)) == Some(Rounded(sign, ip, fp))
  {
    var d := NumeralValue(sign, ip, fp);
    assert Strip(value) != [];
    ParseFiniteComplete(Substitute(Strip(value)), sign, ip, fp, dotted);
    RoundsTo(d.coefficient, d.fracDigits, RoundedMillionths(d));
  }

  /** Conversely, a coordinate is returned only for a numeral of the
      grammar, and it is that numeral's coordinate. */
  lemma ParseCoordSound(value: string)
    requires ParseCoord(Some(value)).Some?
    ensures exists sign, ip, fp, dotted ::
      Spells(Substitute(Strip(value)), sign, ip, fp, dotted) && ParseCoord(Some(value)) == Some(Rounded(sign, ip, fp))
  {
    var t := Substitute(Strip(value));
    ParseFiniteSound(t);
    var sign, ip, fp, dotted :| Spells(t, sign, ip, fp, dotted) && ParseFinite(t).value == NumeralValue(sign, ip, fp);
    var d := NumeralValue(sign, ip, fp);
    var q := ParseCoord(Some(value)).value;
    assert ParseCoord(Some(value)) == Quantize6(d);
    RoundsHalfUpUnique(d.coefficient, d.fracDigits, Abs(q), RoundedMillionths(d));
    ParseCoordValid(value, sign, ip, fp, dotted);
  }

  /** Characters that stand for the same thing give the same coordinate:
      `,` and `.` are interchangeable, and so are U+2212 and `-`. */
  lemma ParseCoordCanonical(a: string, b: string)
    requires |a| == |b|
    requires forall i :: 0 <= i < |a| ==> Canonical(a[i]) == Canonical(b[i])
    ensures ParseCoord(Some(a)) == ParseCoord(Some(b))
  {
    StrippedCanonical(a, b);
    ParseCoordBySubstitute(a, b);
  }

  lemma StrippedCanonical(a: string, b: string)
    requires |a| == |b|
    requires forall i :: 0 <= i < |a| ==> Canonical(a[i]) == Canonical(b[i])
    ensures |Strip(a)| == |Strip(b)| && Substitute(Strip(a)) == Substitute(Strip(b))
  {
    StripCanonical(a, b);
    CanonicalInfix(a, b, Strip(a), Strip(b), LeadingSpace(a), LeadingSpace(b));
  }

  /** Canonically equal strings have canonically equal slices, which
      substitute to the same text. */
  lemma CanonicalInfix(a: string, b: string, sa: string, sb: string, l: nat, lb: nat)
    requires |a| == |b| && |sa| == |sb| && l == lb && l + |sa| <= |a|
    requires forall i :: 0 <= i < |a| ==> Canonical(a[i]) == Canonical(b[i])
    requires forall i :: 0 <= i < |sa| ==> sa[i] == a[l + i]
    requires forall i :: 0 <= i < |sb| ==> sb[i] == b[lb + i]
    ensures Substitute(sa) == Substitute(sb)
  {
    assert forall i :: 0 <= i < |sa| ==> Canonical(sa[i]) == Canonical(sb[i]) by {
      forall i | 0 <= i < |sa| ensures Canonical(sa[i]) == Canonical(sb[i]) {
        assert Canonical(a[l + i]) == Canonical(b[l + i]);
      }
    }
    SubstituteCanonical(sa, sb);
  }

  lemma ParseCoordBySubstitute(a: string, b: string)
    requires |a| == |b| && |Strip(a)| == |Strip(b)|
    requires Substitute(Strip(a)) == Substitute(Strip(b))
    ensures ParseCoord(Some(a)) == ParseCoord(Some(b))
  {
  }

  lemma StripCanonical(a: string, b: string)
    requires |a| == |b|
    requires forall i :: 0 <= i < |a| ==> Canonical(a[i]) == Canonical(b[i])
    ensures LeadingSpace(a) == LeadingSpace(b) && |Strip(a)| == |Strip(b)|
  {
    forall i | 0 <= i < |a| ensures IsSpace(a[i]) <==> IsSpace(b[i]) {
      CanonicalKeepsSpace(a[i], b[i]);
    }
    StripSameMask(a, b);
  }

  lemma CanonicalKeepsSpace(c: char, d: char)
    requires Canonical(c) == Canonical(d)
    ensures IsSpace(c) <==> IsSpace(d)
  {
  }

  lemma SubstituteCanonical(a: string, b: string)
    requires |a| == |b|
    requires forall i :: 0 <= i < |a| ==> Canonical(a[i]) == Canonical(b[i])
    ensures Substitute(a) == Substitute(b)
  {
    SubstitutePointwise(a);
    SubstitutePointwise(b);
  }

  /** The characters of a numeral written with a decimal point. */
  predicate PlainChar(c: char) {
    IsDigit(c) || c == '.' || c == '-'
  }

  lemma PlainChars(s: string)
    requires forall i :: 0 <= i < |s| ==> PlainChar(s[i])
    ensures forall i :: 0 <= i < |s| ==> !IsSpace(s[i]) && !IsCoordSeparator(s[i]) && s[i] != Minus
  {
  }

  /** A numeral written with a decimal point is parsed as written. */
  lemma ParseCoordPlain(s: string)
    requires s != []
    requires forall i :: 0 <= i < |s| ==> PlainChar(s[i])
    ensures ParseCoord(Some(s)) == QuantizeParsed(ParseFinite(s))
  {
    PlainUnchanged(s);
    ParseCoordUnchanged(s);
  }

  /** Stripping and substituting leave a plain numeral as it is. */
  lemma PlainUnchanged(s: string)
    requires forall i :: 0 <= i < |s| ==> PlainChar(s[i])
    ensures Strip(s) == s && Substitute(s) == s
  {
    PlainChars(s);
    StripNoSpace(s);
    PlainSubstitute(s);
  }

  lemma PlainSubstitute(s: string)
    requires forall i :: 0 <= i < |s| ==> PlainChar(s[i])
    ensures Substitute(s) == s
  {
    SubstitutePointwise(s);
    assert forall i :: 0 <= i < |s| ==> Canonical(s[i]) == s[i];
  }

  lemma ParseCoordUnchanged(s: string)
    requires s != [] && Strip(s) == s && Substitute(s) == s
    ensures ParseCoord(Some(s)) == QuantizeParsed(ParseFinite(s))
  {
  }

  // Worked examples. Each is proved on a parameter equal to the literal, so
  // that the verifier does not try to evaluate the parser on the literal.

  /** The three spellings of a latitude the form accepts. */
  lemma ParseCoordSpellings()
    ensures ParseCoord(Some("-2,053655")) == Some(-2053655)
    ensures ParseCoord(Some([Minus] + "2.053655")) == Some(-2053655)
    ensures ParseCoord(Some("-2.053655")) == Some(-2053655)
  {
    Spellings("-2,053655", [Minus] + "2.053655", "-2.053655");
  }

  lemma Spellings(a: string, b: string, c: string)
    requires a == "-2,053655" && b == [Minus] + "2.053655" && c == "-2.053655"
    ensures ParseCoord(Some(a)) == ParseCoord(Some(c)) == ParseCoord(Some(b))
    ensures ParseCoord(Some(c)) == Some(-2053655)
  {
    SameCanonical(a, c);
    ParseCoordCanonical(a, c);
    SameCanonical(b, c);
    ParseCoordCanonical(b, c);
    Latitude(c);
  }

  lemma SameCanonical(a: string, c: string)
    requires (a == "-2,053655" || a == [Minus] + "2.053655") && c == "-2.053655"
    ensures |a| == |c| && forall i :: 0 <= i < |a| ==> Canonical(a[i]) == Canonical(c[i])
  {
  }

  lemma Latitude(s: string)
    requires s == "-2.053655"
    ensures ParseCoord(Some(s)) == Some(-2053655)
  {
    NumeralLatitude(s);
    PlainToken(s);
    ParseCoordPlain(s);
    QuantizeSixPlaces(-2053655);
  }

  lemma NumeralLatitude(s: string)
    requires s == "-2.053655"
    ensures ParseFinite(s) == Some(Decimal(true, 2053655, 6))
  {
    assert s == "-" + "2" + "." + "053655";
    assert "2" + "053655" == "2053655";
    ParseLayout("-", "2", "053655");
    DigitsLatitude();
  }

  lemma DigitsLatitude()
    ensures DigitsValue("2053655") == 2053655
  {
    assert "2053655"[..6] == "205365";
    assert "205365"[..5] == "20536";
    assert "20536"[..4] == "2053";
    assert "2053"[..3] == "205";
    assert "205"[..2] == "20";
    assert "20"[..1] == "2";
  }

  /** A formatted coordinate is written with digits, '.' and '-' only. */
  lemma Format6Plain(q: int)
    ensures var s := Format6(q); forall i :: 0 <= i < |s| ==> PlainChar(s[i])
  {
  }

  /** Printing a stored coordinate and parsing it again gives it back. */
  lemma ParseCoordFormat6(q: int)
    requires Abs(q) < Overflow
    ensures ParseCoord(Some(Format6(q))) == Some(q)
  {
    Format6Plain(q);
    ParseCoordPlain(Format6(q));
    ParseFormat6(q);
    QuantizeSixPlaces(q);
  }

  /** No range check: a value far outside NUMERIC(9,6), whose largest
      magnitude is 999.999999, is still returned. */
  lemma ParseCoordNoRangeCheck()
    ensures ParseCoord(Some("12345")) == Some(12345000000)
    ensures 12345000000 > 999999999
  {
    Whole("12345");
  }

  lemma Whole(s: string)
    requires s == "12345"
    ensures ParseCoord(Some(s)) == Some(12345000000)
  {
    NumeralWhole(s);
    ParseCoordPlain(s);
    Pow10Six();
  }

  lemma NumeralWhole(s: string)
    requires s == "12345"
    ensures ParseFinite(s) == Some(Decimal(false, 12345, 0))
  {
    assert s == "" + s;
    ParseWhole("", s);
    DigitsWhole();
  }

  lemma DigitsWhole()
    ensures DigitsValue("12345") == 12345
  {
    assert "12345"[..4] == "1234" && "1234"[..3] == "123" && "123"[..2] == "12" && "12"[..1] == "1";
  }

  /** Half-up rounding: five ten-millionths round away from zero, in both
      directions. */
  lemma ParseCoordRoundsHalfUp()
    ensures ParseCoord(Some("0.0000005")) == Some(1)
    ensures ParseCoord(Some("-0.0000005")) == Some(-1)
  {
    Half("0.0000005", "-0.0000005");
  }

  lemma Half(p: string, n: string)
    requires p == "0.0000005" && n == "-0.0000005"
    ensures ParseCoord(Some(p)) == Some(1)
    ensures ParseCoord(Some(n)) == Some(-1)
  {
    NumeralHalf(p, n);
    HalfRoundsUp();
    HalfPlain(p);
    HalfPlain(n);
  }

  lemma HalfPlain(s: string)
    requires s == "0.0000005" || s == "-0.0000005"
    ensures ParseCoord(Some(s)) == QuantizeParsed(ParseFinite(s))
  {
    ParseCoordPlain(s);
  }

  lemma HalfRoundsUp()
    ensures Quantize6(Decimal(false, 5, 7)) == Some(1)
    ensures Quantize6(Decimal(true, 5, 7)) == Some(-1)
  {
    Pow10Six();
    assert Pow10(7) == 10000000;
    assert RoundsHalfUp(5, 7, 1);
    RoundsTo(5, 7, 1);
  }

  lemma NumeralHalf(p: string, n: string)
    requires p == "0.0000005" && n == "-0.0000005"
    ensures ParseFinite(p) == Some(Decimal(false, 5, 7))
    ensures ParseFinite(n) == Some(Decimal(true, 5, 7))
  {
    assert p == "" + "0" + "." + "0000005";
    assert n == "-" + "0" + "." + "0000005";
    assert "0" + "0000005" == "00000005";
    ParseLayout("", "0", "0000005");
    ParseLayout("-", "0", "0000005");
    DigitsHalf();
  }

  lemma DigitsHalf()
    ensures DigitsValue("00000005") == 5
  {
    assert "00000005"[..7] == "0000000";
    assert "0000000"[..6] == "000000" && "000000"[..5] == "00000" && "00000"[..4] == "0000";
    assert "0000"[..3] == "000" && "000"[..2] == "00" && "00"[..1] == "0";
  }

  lemma RoundsTo(c: nat, k: nat, m: nat)
    requires RoundsHalfUp(c, k, m) && m < Overflow
    ensures Quantize6(Decimal(false, c, k)) == Some(m)
    ensures Quantize6(Decimal(true, c, k)) == Some(-(m as int))
  {
    RoundsHalfUpUnique(c, k, m, RoundedMillionths(Decimal(false, c, k)));
    RoundsHalfUpUnique(c, k, m, RoundedMillionths(Decimal(true, c, k)));
  }

  // ---------------------------------------------------------------------
  // parse_coords_combined
  // ---------------------------------------------------------------------

  /** The strings `parse_coords_combined` replaces by a space, in order. */
  const Separators: seq<string> := [",", ";", "|", "\t", "  "]

  /** The `for sep in ...: s = s.replace(sep, ' ')` loop, from `seps` on. */
  function ReplaceEach(s: string, seps: seq<string>): string
    requires forall i :: 0 <= i < |seps| ==> seps[i] != []
    decreases |seps|
  {
    if seps == [] then s else ReplaceEach(ReplaceAll(s, seps[0], " "), seps[1..])
  }

  /** What separates the two numbers of the combined field: whitespace,
      `,`, `;` or `|`. */
  predicate IsCoordSeparator(c: char) {
    IsSpace(c) || c == ',' || c == ';' || c == '|'
  }

  /** The tokens of the combined field: its maximal runs of characters
      that are not separators. */
  function CoordTokens(s: string): seq<string> {
    Fields(s, IsCoordSeparator)
  }

  /** What `parse_coords_combined` promises: the first two tokens parsed as
      coordinates, further tokens ignored, and nothing at all when there are
      fewer than two. */
  function CombinedCoords(value: Option<string>): (Option<int>, Option<int>) {
    var tokens := if value.None? then [] else CoordTokens(value.value);
    if |tokens| < 2 then (None, None)
    else (ParseCoord(Some(tokens[0])), ParseCoord(Some(tokens[1])))
  }

  /** `parse_coords_combined(value)`: strip, turn every separator into a
      space, collapse the spaces and split on them. */
  method ParseCoordsCombined(value: Option<string>) returns (lat: Option<int>, lon: Option<int>)
    ensures (lat, lon) == CombinedCoords(value)
  {
    if value.None? || value.value == [] {
      return None, None;
    }
    var s := Strip(value.value);
    if s == [] {
      FieldsBlank(value.value, IsCoordSeparator);
      return None, None;
    }
    ghost var stripped := s;
    for i := 0 to |Separators|
      invariant ReplaceEach(s, Separators[i..]) == ReplaceEach(stripped, Separators)
    {
      assert Separators[i..][1..] == Separators[i + 1..];
      s := ReplaceAll(s, Separators[i], " ");
    }
    assert Separators[|Separators|..] == [];
    s := Join(Words(s), ' ');
    var parts := SplitOn(s, ' ');
    NormalisedTokens(value.value);
    if |parts| < 2 {
      return None, None;
    }
    lat := ParseCoord(Some(parts[0]));
    lon := ParseCoord(Some(parts[1]));
  }

  /** The string the loop and the `' '.join(s.split())` step produce. */
  function Normalised(s: string): string {
    Join(Words(ReplaceEach(Strip(s), Separators)), ' ')
  }

  /** Splitting the normalised string on single spaces gives exactly the
      tokens, and only blanks and characters that are not separators are
      left in it: no `,`, `;`, `|`, tab or run of spaces, and no empty
      token. */
  lemma NormalisedTokens(s: string)
    ensures var n := Normalised(s);
      && (forall k :: 0 <= k < |n| ==> n[k] == ' ' || !IsCoordSeparator(n[k]))
      && (CoordTokens(s) == [] ==> SplitOn(n, ' ') == [[]])
      && (CoordTokens(s) != [] ==> SplitOn(n, ' ') == CoordTokens(s))
      && (forall i :: 0 <= i < |CoordTokens(s)| ==> CoordTokens(s)[i] != [])
  {
    var w := Words(ReplaceEach(Strip(s), Separators));
    SeparatorsToWords(Strip(s));
    FieldsStrip(s, IsCoordSeparator);
    assert w == CoordTokens(s);
    JoinChars(w, ' ', c => !IsCoordSeparator(c));
    if w != [] {
      SplitOnJoin(w, ' ');
    }
  }

  /** Replacing the separators and splitting on whitespace yields the
      tokens. */
  lemma SeparatorsToWords(s: string)
    ensures Words(ReplaceEach(s, Separators)) == CoordTokens(s)
  {
    var t1 := ReplaceAll(s, ",", " ");
    var t2 := ReplaceAll(t1, ";", " ");
    var t3 := ReplaceAll(t2, "|", " ");
    var t4 := ReplaceAll(t3, "\t", " ");
    ReplaceEachSeparators(s);
    ReplaceCharPointwise(s, ',', ' ');
    ReplaceCharPointwise(t1, ';', ' ');
    ReplaceCharPointwise(t2, '|', ' ');
    ReplaceCharPointwise(t3, '\t', ' ');
    assert |t4| == |s|;
    forall i | 0 <= i < |s|
      ensures t4[i] == (if s[i] in ",;|\t" then ' ' else s[i])
    {
    }
    FieldsCongruent(s, t4, IsCoordSeparator, IsSpace);
    FieldsCollapseDouble(t4, IsSpace);
  }

  lemma ReplaceEachSeparators(s: string)
    ensures ReplaceEach(s, Separators) ==
      ReplaceAll(ReplaceAll(ReplaceAll(ReplaceAll(ReplaceAll(s, ",", " "), ";", " "), "|", " "), "\t", " "), "  ", " ")
  {
    assert Separators[1..] == [";", "|", "\t", "  "];
    assert Separators[1..][1..] == ["|", "\t", "  "];
    assert Separators[1..][1..][1..] == ["\t", "  "];
    assert Separators[1..][1..][1..][1..] == ["  "];
    assert Separators[1..][1..][1..][1..][1..] == [];
  }

  // Worked examples from the docstring of `parse_coords_combined`.

  /** `"-2.053655, -47.549849"` gives the pair the docstring describes. */
  lemma CombinedDecimalPoint()
    ensures CombinedCoords(Some("-2.053655, -47.549849")) == (Some(-2053655), Some(-47549849))
  {
    PointPair("-2.053655, -47.549849", "-2.053655", "-47.549849");
  }

  /** `"-2,053655; -47,549849"` is listed as accepted, but `,` separates
      tokens before `,` could act as a decimal mark: the tokens are `-2`,
      `053655`, `-47` and `549849`, and the pair is (-2, 53655). */
  lemma CombinedDecimalComma()
    ensures CombinedCoords(Some("-2,053655; -47,549849")) == (Some(-2000000), Some(53655000000))
  {
    CommaPair("-2,053655; -47,549849", "-2", "053655");
  }

  lemma PointPair(v: string, a: string, b: string)
    requires v == "-2.053655, -47.549849" && a == "-2.053655" && b == "-47.549849"
    ensures CombinedCoords(Some(v)) == (Some(-2053655), Some(-47549849))
  {
    PointTokens(v, a, b);
    Latitude(a);
    Longitude(b);
  }

  lemma PointTokens(v: string, a: string, b: string)
    requires v == "-2.053655, -47.549849" && a == "-2.053655" && b == "-47.549849"
    ensures CoordTokens(v) == [a, b]
  {
    PointPieces(v, a, b);
    PlainToken(a);
    PlainToken(b);
    PairTokens(a, ", ", b);
  }

  lemma PointPieces(v: string, a: string, b: string)
    requires v == "-2.053655, -47.549849" && a == "-2.053655" && b == "-47.549849"
    ensures v == a + ", " + b
  {
  }

  /** Two tokens with a separator between them, after a comma. */
  lemma PairTokens(a: string, gap: string, b: string)
    requires a != [] && b != [] && gap != [] && gap[0] == ','
    requires forall i :: 0 <= i < |gap| ==> IsCoordSeparator(gap[i])
    requires forall i :: 0 <= i < |a| ==> !IsCoordSeparator(a[i])
    requires forall i :: 0 <= i < |b| ==> !IsCoordSeparator(b[i])
    ensures CoordTokens(a + gap + b) == [a, b]
  {
    var rest := gap[1..] + b;
    assert a + gap + b == a + [','] + rest;
    FieldsCons(a, ',', rest, IsCoordSeparator);
    LeadingSeparators(gap[1..], b);
    FieldsSingle(b, IsCoordSeparator);
  }

  lemma {:induction false} LeadingSeparators(g: string, t: string)
    requires forall i :: 0 <= i < |g| ==> IsCoordSeparator(g[i])
    ensures CoordTokens(g + t) == CoordTokens(t)
    decreases |g|
  {
    if g != [] {
      assert (g + t)[1..] == g[1..] + t;
      LeadingSeparators(g[1..], t);
    } else {
      assert g + t == t;
    }
  }

  lemma PlainToken(s: string)
    requires s in {"-2.053655", "-47.549849", "-2", "053655"}
    ensures forall i :: 0 <= i < |s| ==> PlainChar(s[i]) && !IsCoordSeparator(s[i])
  {
    assert forall i :: 0 <= i < |s| ==> PlainChar(s[i]);
    PlainChars(s);
  }

  lemma Longitude(s: string)
    requires s == "-47.549849"
    ensures ParseCoord(Some(s)) == Some(-47549849)
  {
    NumeralLongitude(s);
    PlainToken(s);
    ParseCoordPlain(s);
    QuantizeSixPlaces(-47549849);
  }

  lemma NumeralLongitude(s: string)
    requires s == "-47.549849"
    ensures ParseFinite(s) == Some(Decimal(true, 47549849, 6))
  {
    assert s == "-" + "47" + "." + "549849";
    assert "47" + "549849" == "47549849";
    ParseLayout("-", "47", "549849");
    DigitsLongitude();
  }

  lemma DigitsLongitude()
    ensures DigitsValue("47549849") == 47549849
  {
    assert "47549849"[..7] == "4754984";
    assert "4754984"[..6] == "475498";
    assert "475498"[..5] == "47549";
    assert "47549"[..4] == "4754";
    assert "4754"[..3] == "475";
    assert "475"[..2] == "47";
    assert "47"[..1] == "4";
  }

  lemma CommaPair(v: string, a: string, b: string)
    requires v == "-2,053655; -47,549849" && a == "-2" && b == "053655"
    ensures CombinedCoords(Some(v)) == (Some(-2000000), Some(53655000000))
  {
    CommaTokens(v, a, b);
    MinusTwo(a);
    Fraction(b);
  }

  lemma CommaTokens(v: string, a: string, b: string)
    requires v == "-2,053655; -47,549849" && a == "-2" && b == "053655"
    ensures |CoordTokens(v)| >= 2 && CoordTokens(v)[0] == a && CoordTokens(v)[1] == b
  {
    var rest := " -47,549849";
    CommaPieces(v, a, b, rest);
    PlainToken(a);
    PlainToken(b);
    LeadingTokens(a, ',', b, ';', rest);
  }

  lemma CommaPieces(v: string, a: string, b: string, rest: string)
    requires v == "-2,053655; -47,549849" && a == "-2" && b == "053655" && rest == " -47,549849"
    ensures v == a + [','] + b + [';'] + rest
  {
  }

  /** Two tokens each closed by a separator come first. */
  lemma LeadingTokens(a: string, c: char, b: string, d: char, t: string)
    requires a != [] && b != [] && IsCoordSeparator(c) && IsCoordSeparator(d)
    requires forall i :: 0 <= i < |a| ==> !IsCoordSeparator(a[i])
    requires forall i :: 0 <= i < |b| ==> !IsCoordSeparator(b[i])
    ensures CoordTokens(a + [c] + b + [d] + t) == [a, b] + CoordTokens(t)
  {
    assert a + [c] + b + [d] + t == a + [c] + (b + [d] + t);
    FieldsCons(a, c, b + [d] + t, IsCoordSeparator);
    FieldsCons(b, d, t, IsCoordSeparator);
  }

  lemma MinusTwo(s: string)
    requires s == "-2"
    ensures ParseCoord(Some(s)) == Some(-2000000)
  {
    NumeralMinusTwo(s);
    PlainToken(s);
    ParseCoordPlain(s);
    Pow10Six();
  }

  lemma NumeralMinusTwo(s: string)
    requires s == "-2"
    ensures ParseFinite(s) == Some(Decimal(true, 2, 0))
  {
    assert s == "-" + "2";
    ParseWhole("-", "2");
  }

  lemma Fraction(s: string)
    requires s == "053655"
    ensures ParseCoord(Some(s)) == Some(53655000000)
  {
    NumeralFraction(s);
    PlainToken(s);
    ParseCoordPlain(s);
    Pow10Six();
  }

  lemma NumeralFraction(s: string)
    requires s == "053655"
    ensures ParseFinite(s) == Some(Decimal(false, 53655, 0))
  {
    assert s == "" + s;
    ParseWhole("", s);
    DigitsFraction();
  }

  lemma DigitsFraction()
    ensures DigitsValue("053655") == 53655
  {
    assert "053655"[..5] == "05365" && "05365"[..4] == "0536" && "0536"[..3] == "053";
    assert "053"[..2] == "05" && "05"[..1] == "0";
  }

  /** A blank combined field gives no coordinates. */
  lemma CombinedBlank(v: string)
    requires AllSpace(v)
    ensures CombinedCoords(Some(v)) == (None, None)
  {
    FieldsBlank(v, IsCoordSeparator);
  }

  /** Only the first two tokens matter. */
  lemma CombinedFirstTwo(v: string, w: string)
    requires |CoordTokens(v)| >= 2 && |CoordTokens(w)| >= 2
    requires CoordTokens(v)[..2] == CoordTokens(w)[..2]
    ensures CombinedCoords(Some(v)) == CombinedCoords(Some(w))
  {
    assert CoordTokens(v)[0] == CoordTokens(v)[..2][0] && CoordTokens(v)[1] == CoordTokens(v)[..2][1];
    assert CoordTokens(w)[0] == CoordTokens(w)[..2][0] && CoordTokens(w)[1] == CoordTokens(w)[..2][1];
  }

  // ---------------------------------------------------------------------
  // enviar_formulario
  // ---------------------------------------------------------------------

  /** The row of the `solicitacoes` table the form fills in. The photo path
      itself is built from `secure_filename` and the clock; only whether a
      photo was stored is kept. */
  datatype Solicitacao = Solicitacao(
    rua: string,
    numero: string,
    bairro: string,
    latitude: Option<int>,
    longitude: Option<int>,
    fotoSalva: bool,
    situacoes: Option<string>)

  /** What a submission leads to: the "please fill in" message, or a record
      handed to the database session. The photo is saved before the required
      fields are checked, so a refused submission may still leave one. */
  datatype Submission =
    | Rejected(photoSaved: bool)
    | Accepted(record: Solicitacao)

  /** `request.form.get(key)`. */
  function Get(form: map<string, string>, key: string): Option<string> {
    if key in form then Some(form[key]) else None
  }

  /** `(request.form.get(key) or '').strip()`. */
  function Field(form: map<string, string>, key: string): (r: string)
    ensures key !in form ==> r == []
    ensures key in form ==> r == Strip(form[key])
  {
    match Get(form, key)
    case None => []
    case Some(v) => Strip(v)
  }

  /** A submission is refused exactly when a required field is blank. */
  predicate MissingRequired(form: map<string, string>) {
    Field(form, "nome_rua") == [] || Field(form, "numero") == [] || Field(form, "bairro") == []
  }

  /** The upload is stored when a file with a non-empty, whitelisted name
      was sent. */
  predicate PhotoStored(foto: Option<string>) {
    foto.Some? && foto.value != [] && AllowedFile(foto.value)
  }

  /** `','.join(situacoes_list) if situacoes_list else None`. */
  function Situacoes(list: seq<string>): (r: Option<string>)
    ensures r.None? <==> list == []
  {
    if list == [] then None else Some(Join(list, ','))
  }

  /** The stored CSV splits back into the ticked boxes when no value
      contains a comma. */
  lemma SituacoesRoundTrip(list: seq<string>)
    requires list != []
    requires forall i :: 0 <= i < |list| ==> ',' !in list[i]
    ensures SplitOn(Situacoes(list).value, ',') == list
  {
    SplitOnJoin(list, ',');
  }

  /** The coordinates a submission ends up with: the combined field, or the
      separate fields when the combined one gave neither value. */
  function Coordinates(form: map<string, string>): (Option<int>, Option<int>) {
    var combined := CombinedCoords(Get(form, "coordenadas"));
    if combined.0.None? && combined.1.None? then
      (ParseCoord(Get(form, "latitude")), ParseCoord(Get(form, "longitude")))
    else combined
  }

  /** When the combined field gives at least one value, the separate fields
      are not consulted: changing them changes nothing. */
  lemma SeparateFieldsIgnored(form: map<string, string>, lat: string, lon: string)
    requires CombinedCoords(Get(form, "coordenadas")) != (None, None)
    ensures Coordinates(form) == CombinedCoords(Get(form, "coordenadas"))
    ensures Coordinates(form["latitude" := lat]["longitude" := lon]) == Coordinates(form)
  {
    var f := form["latitude" := lat]["longitude" := lon];
    assert Get(f, "coordenadas") == Get(form, "coordenadas");
  }

  /** When it gives neither, the separate fields decide both values. */
  lemma SeparateFieldsFallback(form: map<string, string>)
    requires CombinedCoords(Get(form, "coordenadas")) == (None, None)
    ensures Coordinates(form) == (ParseCoord(Get(form, "latitude")), ParseCoord(Get(form, "longitude")))
  {
  }

  /** The decisions of `enviar_formulario` for one POST: the form fields, the
      values of the `situacao` checkboxes and the name of the uploaded file,
      if any. */
  method EnviarFormulario(form: map<string, string>, situacao: seq<string>, foto: Option<string>)
    returns (out: Submission)
    ensures out.Rejected? <==> MissingRequired(form)
    ensures out.Rejected? ==> out.photoSaved == PhotoStored(foto)
    ensures out.Accepted? ==> out.record == Solicitacao(
      Field(form, "nome_rua"), Field(form, "numero"), Field(form, "bairro"),
      Coordinates(form).0, Coordinates(form).1, PhotoStored(foto), Situacoes(situacao))
  {
    var nomeRua := Field(form, "nome_rua");
    var numero := Field(form, "numero");
    var bairro := Field(form, "bairro");

    var lat, lon := ParseCoordsCombined(Get(form, "coordenadas"));
    if lat.None? && lon.None? {
      lat := ParseCoord(Get(form, "latitude"));
      lon := ParseCoord(Get(form, "longitude"));
    }

    var situacoesStr := if situacao != [] then Some(Join(situacao, ',')) else None;

    var fotoSalva := false;
    if foto.Some? && foto.value != [] && AllowedFile(foto.value) {
      fotoSalva := true;
    }

    if nomeRua == [] || numero == [] || bairro == [] {
      return Rejected(fotoSalva);
    }
    return Accepted(Solicitacao(nomeRua, numero, bairro, lat, lon, fotoSalva, situacoesStr));
  }
}
