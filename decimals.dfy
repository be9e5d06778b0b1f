/** The part of Python's `decimal` module that coordinate parsing uses:
    construction from a finite numeral, `quantize` to six places with
    ROUND_HALF_UP in the default context (28 significant digits), and
    `str()` of the quantized result. A quantized value is kept as an
    integer count of millionths. */
module Decimals {

  import opened Wrappers
  import opened Strings

  const Million: nat := 1000000

  /** 10^28: the smallest magnitude with more digits than the 28 significant
      digits of the default decimal context allow. */
  const Overflow: nat := 10_000_000_000_000_000_000_000_000_000

  function Pow10(n: nat): (p: nat)
    ensures p >= 1
  {
    if n == 0 then 1 else 10 * Pow10(n - 1)
  }

  lemma {:induction false} Pow10Add(a: nat, b: nat)
    ensures Pow10(a + b) == Pow10(a) * Pow10(b)
    decreases a
  {
    if a > 0 {
      Pow10Add(a - 1, b);
      assert Pow10(a + b) == 10 * (Pow10(a - 1) * Pow10(b));
    }
  }

  lemma Pow10Six()
    ensures Pow10(6) == Million
  {
    assert Pow10(2) == 100;
    assert Pow10(4) == 10000;
  }

  predicate IsDigit(c: char) {
    '0' <= c <= '9'
  }

  predicate AllDigits(s: string) {
    forall i :: 0 <= i < |s| ==> IsDigit(s[i])
  }

  /** The number a string of decimal digits denotes. */
  function DigitsValue(ds: string): (v: nat)
    requires AllDigits(ds)
    ensures v < Pow10(|ds|)
    decreases |ds|
  {
    if ds == [] then 0
    else 10 * DigitsValue(ds[..|ds| - 1]) + (ds[|ds| - 1] as int - '0' as int)
  }

  lemma {:induction false} DigitsValueAppend(a: string, b: string)
    requires AllDigits(a) && AllDigits(b)
    ensures AllDigits(a + b)
    ensures DigitsValue(a + b) == DigitsValue(a) * Pow10(|b|) + DigitsValue(b)
    decreases |b|
  {
    if b == [] {
      assert a + b == a;
    } else {
      var b' := b[..|b| - 1];
      assert (a + b)[..|a + b| - 1] == a + b';
      assert (a + b)[|a + b| - 1] == b[|b| - 1];
      DigitsValueAppend(a, b');
      ShiftDigit(DigitsValue(a), Pow10(|b'|), DigitsValue(b'), b[|b| - 1] as int - '0' as int);
    }
  }

  lemma ShiftDigit(x: int, p: int, y: int, d: int)
    ensures 10 * (x * p + y) + d == x * (10 * p) + (10 * y + d)
  {
  }

  function DigitChar(d: nat): (c: char)
    requires d < 10
    ensures IsDigit(c) && c as int - '0' as int == d
  {
    ('0' as int + d) as char
  }

  /** `str(n)` for a natural number: its decimal digits, without leading zeros. */
  function NatToDigits(n: nat): (s: string)
    ensures |s| >= 1 && AllDigits(s)
    ensures DigitsValue(s) == n
    ensures |s| > 1 ==> s[0] != '0'
    decreases n
  {
    if n < 10 then [DigitChar(n)]
    else
      var init := NatToDigits(n / 10);
      var s := init + [DigitChar(n % 10)];
      assert s[..|s| - 1] == init;
      s
  }

  /** The last `width` decimal digits of `n`, zero-padded on the left. */
  function PadDigits(n: nat, width: nat): (s: string)
    requires n < Pow10(width)
    ensures |s| == width && AllDigits(s)
    ensures DigitsValue(s) == n
    decreases width
  {
    if width == 0 then []
    else
      var init := PadDigits(n / 10, width - 1);
      var s := init + [DigitChar(n % 10)];
      assert s[..|s| - 1] == init;
      s
  }

  /** A finite decimal: (-1)^negative * coefficient * 10^-fracDigits. */
  datatype Decimal = Decimal(negative: bool, coefficient: nat, fracDigits: nat)

  /** `Decimal(s)` restricted to finite numerals: an optional sign, then
      digits with at most one '.', and at least one digit. */
  function ParseFinite(s: string): (r: Option<Decimal>)
    ensures r.Some? ==> |s| > 0 && (r.value.negative <==> s[0] == '-')
    ensures r.Some? ==> forall i :: 0 <= i < |s| ==>
      IsDigit(s[i]) || s[i] == '.' || (i == 0 && (s[i] == '+' || s[i] == '-'))
  {
    var signed := |s| > 0 && (s[0] == '+' || s[0] == '-');
    var body := if signed then s[1..] else s;
    var r := ParseUnsigned(|s| > 0 && s[0] == '-', body);
    assert forall i :: 1 <= i < |s| && signed ==> s[i] == body[i - 1];
    r
  }

  /** The numeral after its sign: the digits before and after the first '.'. */
  function ParseUnsigned(negative: bool, body: string): (r: Option<Decimal>)
    ensures r.Some? ==> r.value.negative == negative && |body| > 0
    ensures r.Some? ==> forall i :: 0 <= i < |body| ==> IsDigit(body[i]) || body[i] == '.'
  {
    var k := IndexOf(body, '.');
    var ip := body[..k];
    var fp := if k < |body| then body[k + 1..] else [];
    var r := ParseParts(negative, ip, fp);
    if r.Some? then
      assert forall i :: 0 <= i < |body| ==> IsDigit(body[i]) || body[i] == '.' by {
        forall i | 0 <= i < |body| ensures IsDigit(body[i]) || body[i] == '.' {
          if i < k { assert body[i] == ip[i]; }
          else if i > k { assert body[i] == fp[i - k - 1]; }
        }
      }
      r
    else r
  }

  /** The value of the integer digits `ip` and the fraction digits `fp`. */
  function ParseParts(negative: bool, ip: string, fp: string): (r: Option<Decimal>)
    ensures r.Some? <==> AllDigits(ip) && AllDigits(fp) && |ip| + |fp| >= 1
    ensures r.Some? ==> r.value == Decimal(negative, Positional(ip, fp), |fp|)
  {
    if AllDigits(ip) && AllDigits(fp) && |ip| + |fp| >= 1 then
      DigitsValueAppend(ip, fp);
      Some(Decimal(negative, DigitsValue(ip + fp), |fp|))
    else None
  }

  /** The magnitude `m`, in millionths, is `c / 10^k` rounded to the nearest
      millionth with ties away from zero: `c / 10^k - m / 10^6` lies in
      [-1/2, 1/2) millionths. */
  ghost predicate RoundsHalfUp(c: nat, k: nat, m: nat) {
    && 2 * c * Million < 2 * m * Pow10(k) + Pow10(k)
    && 2 * m * Pow10(k) <= 2 * c * Million + Pow10(k)
  }

  lemma MulLess(a: int, b: int, p: int)
    requires p > 0 && a < b
    ensures a * p < b * p
  {
  }

  lemma MulLessEq(a: int, b: int, p: int)
    requires p > 0 && a <= b
    ensures a * p <= b * p
  {
  }

  lemma MulLessCancel(a: int, b: int, p: int)
    requires p > 0 && a * p < b * p
    ensures a < b
  {
    if a >= b { MulLessEq(b, a, p); }
  }

  /** Half-up rounding determines the millionths uniquely. */
  lemma RoundsHalfUpUnique(c: nat, k: nat, m1: nat, m2: nat)
    requires RoundsHalfUp(c, k, m1) && RoundsHalfUp(c, k, m2)
    ensures m1 == m2
  {
    var p := Pow10(k);
    assert 2 * m1 * p < 2 * m2 * p + 2 * p;
    assert 2 * m2 * p < 2 * m1 * p + 2 * p;
    assert 2 * m1 * p == m1 * (2 * p) && 2 * m2 * p + 2 * p == (m2 + 1) * (2 * p);
    MulLessCancel(m1, m2 + 1, 2 * p);
    assert 2 * m1 * p + 2 * p == (m1 + 1) * (2 * p) && 2 * m2 * p == m2 * (2 * p);
    MulLessCancel(m2, m1 + 1, 2 * p);
  }

  /** The magnitude of `d` rounded half-up to millionths. */
  function RoundedMillionths(d: Decimal): (m: nat)
    ensures RoundsHalfUp(d.coefficient, d.fracDigits, m)
  {
    var c, k := d.coefficient, d.fracDigits;
    Pow10Six();
    if k <= 6 then
      var m := c * Pow10(6 - k);
      Pow10Add(6 - k, k);
      assert m * Pow10(k) == c * Million;
      m
    else
      var e := Pow10(k - 6);
      var h := e / 2;
      var m := (c + h) / e;
      RoundUpBounds(c, k, e, h, m);
      m
  }

  lemma RoundUpBounds(c: nat, k: nat, e: nat, h: nat, m: nat)
    requires k > 6 && e == Pow10(k - 6) && h == e / 2 && m == (c + h) / e
    ensures RoundsHalfUp(c, k, m)
  {
    PowSplit(k, e);
    DivBounds(c + h, e);
    HalfUpScaled(c, m, e, h, Million, Pow10(k));
  }

  /** Beyond six places the unit is a millionth times an even power of ten. */
  lemma PowSplit(k: nat, e: nat)
    requires k > 6 && e == Pow10(k - 6)
    ensures Pow10(k) == e * Million && e == 2 * (e / 2)
  {
    Pow10Six();
    Pow10Add(k - 6, 6);
    Pow10Even(k - 6);
  }

  lemma Pow10Even(j: nat)
    requires j >= 1
    ensures Pow10(j) == 2 * (Pow10(j) / 2)
  {
    assert Pow10(j) == 10 * Pow10(j - 1);
  }

  lemma DivBounds(x: nat, e: nat)
    requires e > 0
    ensures (x / e) * e <= x < (x / e) * e + e
  {
  }

  /** Rounding `c / e` half-up to `m`, scaled by `u` to the unit `p = e * u`. */
  lemma HalfUpScaled(c: int, m: int, e: int, h: int, u: int, p: int)
    requires e == 2 * h && u > 0 && p == e * u
    requires m * e <= c + h < m * e + e
    ensures 2 * c * u < 2 * m * p + p
    ensures 2 * m * p <= 2 * c * u + p
  {
    MulLess(2 * c, 2 * m * e + e, u);
    MulLessEq(2 * m * e, 2 * c + e, u);
    assert (2 * m * e + e) * u == 2 * m * p + p;
    assert (2 * c + e) * u == 2 * c * u + p;
    assert 2 * m * e * u == 2 * m * p;
  }

  /** `d.quantize(Decimal('0.000001'), rounding=ROUND_HALF_UP)` in the default
      context, in millionths; None where it signals InvalidOperation because
      the result needs more than 28 digits. */
  function Quantize6(d: Decimal): (q: Option<int>)
    ensures q.Some? ==> (q.value < 0 ==> d.negative) && (q.value > 0 ==> !d.negative)
    ensures q.Some? ==> RoundsHalfUp(d.coefficient, d.fracDigits, Abs(q.value))
    ensures q.Some? ==> Abs(q.value) < Overflow
    ensures q.None? ==> forall m: nat :: RoundsHalfUp(d.coefficient, d.fracDigits, m) ==> m >= Overflow
  {
    var m := RoundedMillionths(d);
    if m >= Overflow then
      RoundingTooWide(d.coefficient, d.fracDigits, m);
      None
    else
      var v: int := if d.negative then -(m as int) else m;
      assert Abs(v) == m;
      Some(v)
  }

  lemma RoundingTooWide(c: nat, k: nat, m: nat)
    requires RoundsHalfUp(c, k, m) && m >= Overflow
    ensures forall m': nat :: RoundsHalfUp(c, k, m') ==> m' >= Overflow
  {
    forall m': nat | RoundsHalfUp(c, k, m') ensures m' >= Overflow {
      RoundsHalfUpUnique(c, k, m, m');
    }
  }

  function Abs(x: int): nat {
    if x < 0 then -x else x
  }

  /** `str()` of a Decimal quantized to six places, given in millionths:
      the sign, the integer digits, a '.', and exactly six digits. */
  function Format6(q: int): (s: string)
    ensures |s| >= 8 && s[|s| - 7] == '.' && AllDigits(s[|s| - 6..])
    ensures forall i :: 0 <= i < |s| - 7 ==> IsDigit(s[i]) || (i == 0 && s[i] == '-')
    ensures s[0] == '-' <==> q < 0
  {
    var m := Abs(q);
    var whole, frac := m / Million, m % Million;
    Pow10Six();
    var sign: string := if q < 0 then "-" else "";
    var ip := NatToDigits(whole);
    var fp := PadDigits(frac, 6);
    Layout(sign, ip, fp);
    sign + ip + "." + fp
  }

  /** Where the parts of `sign + ip + "." + fp` end up. */
  lemma Layout(sign: string, ip: string, fp: string)
    requires sign == "" || sign == "-"
    requires |ip| >= 1 && AllDigits(ip) && |fp| == 6 && AllDigits(fp)
    ensures var s := sign + ip + "." + fp;
      && |s| >= 8 && s[|s| - 7] == '.' && s[|s| - 6..] == fp
      && (forall i :: 0 <= i < |s| - 7 ==> IsDigit(s[i]) || (i == 0 && s[i] == '-'))
      && (s[0] == '-' <==> sign == "-")
  {
    var s := sign + ip + "." + fp;
    assert s[|s| - 6..] == fp;
    assert forall i :: |sign| <= i < |s| - 7 ==> s[i] == ip[i - |sign|];
    if sign == "" { assert s[0] == ip[0]; }
  }

  /** Parsing the printed form of a quantized value gives back its digits. */
  lemma ParseFormat6(q: int)
    ensures ParseFinite(Format6(q)) == Some(Decimal(q < 0, Abs(q), 6))
  {
    var m := Abs(q);
    Pow10Six();
    var sign: string := if q < 0 then "-" else "";
    var ip := NatToDigits(m / Million);
    var fp := PadDigits(m % Million, 6);
    assert Format6(q) == sign + ip + "." + fp;
    ParseLayout(sign, ip, fp);
    JoinMillionths(ip, fp, m);
  }

  /** The integer digits followed by six fraction digits spell the
      millionths. */
  lemma JoinMillionths(ip: string, fp: string, m: nat)
    requires AllDigits(ip) && AllDigits(fp) && |fp| == 6
    requires DigitsValue(ip) == m / Million && DigitsValue(fp) == m % Million
    ensures DigitsValue(ip + fp) == m
  {
    DigitsValueAppend(ip, fp);
    Pow10Six();
  }

  /** `ParseFinite` splits `sign + ip + "." + fp` back into its parts; the
      integer part may be empty, as in ".5". */
  lemma ParseLayout(sign: string, ip: string, fp: string)
    requires sign == "" || sign == "+" || sign == "-"
    requires AllDigits(ip) && AllDigits(fp) && |ip| + |fp| >= 1
    ensures AllDigits(ip + fp)
    ensures ParseFinite(sign + ip + "." + fp) == Some(Decimal(sign == "-", DigitsValue(ip + fp), |fp|))
  {
    var body := ip + "." + fp;
    Regroup(sign, ip, fp);
    assert body[0] == if ip == [] then '.' else ip[0];
    ParseSigned(sign, body);
    ParseDotted(sign == "-", ip, fp);
    DigitsValueAppend(ip, fp);
    assert ParseParts(sign == "-", ip, fp) == Some(Decimal(sign == "-", Positional(ip, fp), |fp|));
  }

  lemma Regroup(sign: string, ip: string, fp: string)
    ensures sign + ip + "." + fp == sign + (ip + "." + fp)
  {
  }

  /** The first '.' separates the integer digits from the fraction. */
  lemma ParseDotted(negative: bool, ip: string, fp: string)
    requires AllDigits(ip)
    ensures ParseUnsigned(negative, ip + "." + fp) == ParseParts(negative, ip, fp)
  {
    DotLayout(ip, fp);
  }

  /** `ParseFinite` reads a signed whole number without a '.'. */
  lemma ParseWhole(sign: string, ip: string)
    requires sign == "" || sign == "+" || sign == "-"
    requires |ip| >= 1 && AllDigits(ip)
    ensures ParseFinite(sign + ip) == Some(Decimal(sign == "-", DigitsValue(ip), 0))
  {
    ParseSigned(sign, ip);
    NoDot(ip);
    assert ParseUnsigned(sign == "-", ip) == ParseParts(sign == "-", ip, []);
    assert ip + [] == ip;
  }

  lemma NoDot(ip: string)
    requires AllDigits(ip)
    ensures IndexOf(ip, '.') == |ip| && ip[..|ip|] == ip
  {
    assert '.' !in ip;
  }

  /** The sign is split off before the numeral is read. */
  lemma ParseSigned(sign: string, body: string)
    requires sign == "" || sign == "+" || sign == "-"
    requires |body| >= 1 && body[0] != '+' && body[0] != '-'
    ensures ParseFinite(sign + body) == ParseUnsigned(sign == "-", body)
  {
    SignLayout(sign, body);
  }

  lemma SignLayout(sign: string, body: string)
    requires sign == "" || sign == "+" || sign == "-"
    requires |body| >= 1 && body[0] != '+' && body[0] != '-'
    ensures var s := sign + body;
      && (|s| > 0 && (s[0] == '+' || s[0] == '-') <==> sign != "")
      && (|s| > 0 && s[0] == '-' <==> sign == "-")
      && (sign != "" ==> s[1..] == body)
      && (sign == "" ==> s == body)
  {
    var s := sign + body;
    if sign == "" { assert s == body; } else { assert s[1..] == body; }
  }

  lemma DotLayout(ip: string, fp: string)
    requires AllDigits(ip)
    ensures var body := ip + "." + fp;
      var k := IndexOf(body, '.');
      k == |ip| && k < |body| && body[..k] == ip && body[k + 1..] == fp
  {
    var body := ip + "." + fp;
    assert body[..|ip|] == ip && body[|ip|] == '.';
    assert body[|ip| + 1..] == fp;
  }

  /** The numerals `Decimal(s)` accepts here: an optional sign, the integer
      digits and, after a point, the fraction digits, with at least one
      digit in all. */
  predicate Spells(s: string, sign: string, ip: string, fp: string, dotted: bool) {
    && (sign == "" || sign == "+" || sign == "-")
    && AllDigits(ip) && AllDigits(fp) && |ip| + |fp| >= 1
    && (if dotted then s == sign + ip + "." + fp else fp == [] && s == sign + ip)
  }

  /** The value such a numeral denotes, read positionally: the integer digits
      scaled past the fraction, plus the fraction digits. */
  function NumeralValue(sign: string, ip: string, fp: string): Decimal
    requires AllDigits(ip) && AllDigits(fp)
  {
    Decimal(sign == "-", Positional(ip, fp), |fp|)
  }

  /** The coefficient of the digits `ip`, a point and the digits `fp`. */
  function Positional(ip: string, fp: string): nat
    requires AllDigits(ip) && AllDigits(fp)
  {
    DigitsValue(ip) * Pow10(|fp|) + DigitsValue(fp)
  }

  /** Every numeral of the grammar parses, to the value it denotes. */
  lemma ParseFiniteComplete(s: string, sign: string, ip: string, fp: string, dotted: bool)
    requires Spells(s, sign, ip, fp, dotted)
    ensures ParseFinite(s) == Some(NumeralValue(sign, ip, fp))
  {
    DigitsValueAppend(ip, fp);
    var d := Decimal(sign == "-", DigitsValue(ip + fp), |fp|);
    assert d == NumeralValue(sign, ip, fp);
    if dotted {
      ParseLayout(sign, ip, fp);
    } else {
      EmptySuffix(ip, fp);
      ParseWhole(sign, ip);
    }
  }

  lemma EmptySuffix(ip: string, fp: string)
    requires fp == []
    ensures ip + fp == ip
  {
  }

  /** Only numerals of the grammar parse: a text with two points, no digit,
      a sign after the start or any other character is refused. */
  lemma ParseFiniteSound(s: string)
    requires ParseFinite(s).Some?
    ensures exists sign, ip, fp, dotted :: Spells(s, sign, ip, fp, dotted) && ParseFinite(s).value == NumeralValue(sign, ip, fp)
  {
    var sign, body := SignSplit(s);
    var ip, fp, dotted := DotSplit(sign == "-", body);
    var d := ParseFinite(s).value;
    assert d == NumeralValue(sign, ip, fp);
    if dotted {
      Regroup(sign, ip, fp);
      assert s == sign + ip + "." + fp;
    } else {
      assert s == sign + ip;
    }
    assert Spells(s, sign, ip, fp, dotted);
  }

  /** The sign `ParseFinite` splits off, and the body it reads. */
  lemma SignSplit(s: string) returns (sign: string, body: string)
    requires |s| > 0
    ensures sign == "" || sign == "+" || sign == "-"
    ensures s == sign + body
    ensures ParseFinite(s) == ParseUnsigned(sign == "-", body)
  {
    ParseFiniteUnfold(s);
    if s[0] == '+' || s[0] == '-' {
      sign, body := [s[0]], s[1..];
      assert s == sign + body;
      assert (sign == "-") == (s[0] == '-') by {
        if sign == "-" { assert sign[0] == '-'; }
      }
    } else {
      sign, body := [], s;
      assert s == sign + body;
    }
  }

  lemma ParseFiniteUnfold(s: string)
    requires |s| > 0
    ensures ParseFinite(s) == ParseUnsigned(s[0] == '-', if s[0] == '+' || s[0] == '-' then s[1..] else s)
  {
  }

  /** The digits before and after the first point of a body that parses. */
  lemma DotSplit(negative: bool, body: string) returns (ip: string, fp: string, dotted: bool)
    requires ParseUnsigned(negative, body).Some?
    ensures AllDigits(ip) && AllDigits(fp) && |ip| + |fp| >= 1
    ensures if dotted then body == ip + "." + fp else fp == [] && body == ip
    ensures ParseUnsigned(negative, body).value == Decimal(negative, Positional(ip, fp), |fp|)
  {
    var k := IndexOf(body, '.');
    ip := body[..k];
    fp := if k < |body| then body[k + 1..] else [];
    dotted := k < |body|;
    assert ParseUnsigned(negative, body) == ParseParts(negative, ip, fp);
    if dotted {
      SplitAtPoint(body, k);
    } else {
      assert body[..|body|] == body;
    }
  }

  lemma SplitAtPoint(body: string, k: nat)
    requires k < |body| && body[k] == '.'
    ensures body == body[..k] + "." + body[k + 1..]
  {
    assert body == body[..k] + [body[k]] + body[k + 1..];
  }

  /** Quantizing a value that already has six places gives it back. */
  lemma QuantizeSixPlaces(q: int)
    requires Abs(q) < Overflow
    ensures Quantize6(Decimal(q < 0, Abs(q), 6)) == Some(q)
  {
    var d := Decimal(q < 0, Abs(q), 6);
    assert RoundedMillionths(d) == Abs(q) by {
      Pow10Six();
      assert RoundsHalfUp(Abs(q), 6, Abs(q));
      RoundsHalfUpUnique(Abs(q), 6, RoundedMillionths(d), Abs(q));
    }
  }
}
