/** The parts of Python's `str` that the scripts rely on: `isspace`,
    `strip`, `lower`, the `in` operator, `replace`, `split`, `join`,
    `rsplit('.', 1)` and the ordering that `sorted` uses. Strings are
    sequences of Unicode scalar values, as in Python 3. */
module Strings {

  import opened Wrappers

  // ---------------------------------------------------------------------
  // Whitespace and strip()
  // ---------------------------------------------------------------------

  /** Python `str.isspace()` for one character: the characters of Unicode
      category Zs and of bidirectional class WS, B or S. */
  predicate IsSpace(c: char) {
    || c == ' '
    || ('\t' <= c <= '\r')            // tab, line feed, vertical tab, form feed, carriage return
    || ('\U{1C}' <= c <= '\U{1F}')    // file, group, record and unit separators
    || c == '\U{85}' || c == '\U{A0}' || c == '\U{1680}'
    || ('\U{2000}' <= c <= '\U{200A}')
    || c == '\U{2028}' || c == '\U{2029}' || c == '\U{202F}' || c == '\U{205F}' || c == '\U{3000}'
  }

  ghost predicate AllSpace(s: string) {
    forall i :: 0 <= i < |s| ==> IsSpace(s[i])
  }

  /** The number of leading whitespace characters: where `s.lstrip()`
      starts. */
  function LeadingSpace(s: string): (n: nat)
    ensures n <= |s|
    ensures forall i :: 0 <= i < n ==> IsSpace(s[i])
    ensures n < |s| ==> !IsSpace(s[n])
    decreases |s|
  {
    if s != [] && IsSpace(s[0]) then
      var n := 1 + LeadingSpace(s[1..]);
      assert forall i :: 1 <= i < n ==> s[i] == s[1..][i - 1];
      n
    else 0
  }

  /** Where the trailing whitespace starts: where `s.rstrip()` ends. */
  function TrailingStart(s: string): (n: nat)
    ensures n <= |s|
    ensures forall i :: n <= i < |s| ==> IsSpace(s[i])
    ensures n > 0 ==> !IsSpace(s[n - 1])
    decreases |s|
  {
    if s != [] && IsSpace(s[|s| - 1]) then
      var n := TrailingStart(s[..|s| - 1]);
      assert forall i :: n <= i < |s| - 1 ==> s[i] == s[..|s| - 1][i];
      n
    else |s|
  }

  /** `s.strip()`: the text between the leading and the trailing whitespace,
      empty when there is nothing else. */
  function Strip(s: string): (r: string)
    ensures LeadingSpace(s) + |r| <= |s|
    ensures forall i :: 0 <= i < |r| ==> r[i] == s[LeadingSpace(s) + i]
    ensures r == [] || (!IsSpace(r[0]) && !IsSpace(r[|r| - 1]))
    ensures r == [] <==> AllSpace(s)
  {
    var a, b := LeadingSpace(s), TrailingStart(s);
    if a < b then
      s[a..b]
    else
      assert a == |s|;
      []
  }

  /** Only whitespace is dropped, before and after. */
  lemma StripMargins(s: string)
    ensures forall i :: 0 <= i < LeadingSpace(s) ==> IsSpace(s[i])
    ensures forall i :: LeadingSpace(s) + |Strip(s)| <= i < |s| ==> IsSpace(s[i])
  {
  }

  /** A string without whitespace is its own strip. */
  lemma StripNoSpace(s: string)
    requires forall i :: 0 <= i < |s| ==> !IsSpace(s[i])
    ensures Strip(s) == s
  {
    if s != [] {
      StripNoSpaceEnds(s);
    }
  }

  /** A string that starts and ends with a non-blank is its own strip. */
  lemma StripNoSpaceEnds(s: string)
    requires s != [] && !IsSpace(s[0]) && !IsSpace(s[|s| - 1])
    ensures Strip(s) == s
  {
    assert LeadingSpace(s) == 0;
    assert TrailingStart(s) == |s|;
    assert s[0..|s|] == s;
  }

  /** Two strings with whitespace at the same positions are stripped at the
      same positions. */
  lemma {:induction false} LeadingSpaceSameMask(s: string, t: string)
    requires |s| == |t|
    requires forall i :: 0 <= i < |s| ==> (IsSpace(s[i]) <==> IsSpace(t[i]))
    ensures LeadingSpace(s) == LeadingSpace(t)
    decreases |s|
  {
    if s != [] && IsSpace(s[0]) {
      LeadingSpaceSameMask(s[1..], t[1..]);
    }
  }

  lemma {:induction false} TrailingStartSameMask(s: string, t: string)
    requires |s| == |t|
    requires forall i :: 0 <= i < |s| ==> (IsSpace(s[i]) <==> IsSpace(t[i]))
    ensures TrailingStart(s) == TrailingStart(t)
    decreases |s|
  {
    if s != [] && IsSpace(s[|s| - 1]) {
      TrailingStartSameMask(s[..|s| - 1], t[..|t| - 1]);
    }
  }

  /** The bounds `strip()` keeps depend only on where the whitespace is. */
  lemma StripSameMask(s: string, t: string)
    requires |s| == |t|
    requires forall i :: 0 <= i < |s| ==> (IsSpace(s[i]) <==> IsSpace(t[i]))
    ensures LeadingSpace(s) == LeadingSpace(t)
    ensures |Strip(s)| == |Strip(t)|
  {
    LeadingSpaceSameMask(s, t);
    TrailingStartSameMask(s, t);
  }

  // ---------------------------------------------------------------------
  // lower() and the `in` operator
  // ---------------------------------------------------------------------

  /** Lower-casing of one character: the ASCII and Latin-1 capitals. */
  function LowerChar(c: char): (d: char)
    ensures ('A' <= c <= 'Z') ==> 'a' <= d <= 'z'
    ensures !('A' <= c <= 'Z') && !('\U{C0}' <= c <= '\U{DE}') ==> d == c
  {
    if ('A' <= c <= 'Z') || ('\U{C0}' <= c <= '\U{DE}' && c != '\U{D7}') then
      (c as int + 32) as char
    else c
  }

  /** `s.lower()`, character by character. */
  function Lower(s: string): (r: string)
    ensures |r| == |s|
    ensures forall i :: 0 <= i < |s| ==> r[i] == LowerChar(s[i])
  {
    seq(|s|, i requires 0 <= i < |s| => LowerChar(s[i]))
  }

  predicate IsPrefix(p: string, s: string) {
    |p| <= |s| && s[..|p|] == p
  }

  /** The substring test `pat in s`. */
  function Contains(s: string, pat: string): (b: bool)
    ensures b <==> exists i :: 0 <= i <= |s| && IsPrefix(pat, s[i..])
    decreases |s|
  {
    if IsPrefix(pat, s) then
      assert s[0..] == s;
      true
    else if s == [] then false
    else
      var b := Contains(s[1..], pat);
      assert forall i :: 0 <= i <= |s| - 1 ==> s[1..][i..] == s[i + 1..];
      assert (exists i :: 0 <= i <= |s| && IsPrefix(pat, s[i..])) ==> b by {
        if exists i :: 0 <= i <= |s| && IsPrefix(pat, s[i..]) {
          var i :| 0 <= i <= |s| && IsPrefix(pat, s[i..]);
          assert i != 0;
          assert IsPrefix(pat, s[1..][i - 1..]);
        }
      }
      b
  }

  /** `s.find(c)`, except that a missing character gives `len(s)`. */
  function IndexOf(s: string, c: char): (i: nat)
    ensures i <= |s|
    ensures i < |s| ==> s[i] == c
    ensures c !in s[..i]
    ensures c in s <==> i < |s|
    decreases |s|
  {
    if s == [] then 0
    else if s[0] == c then 0
    else
      var i := 1 + IndexOf(s[1..], c);
      assert s[..i] == [s[0]] + s[1..][..i - 1];
      i
  }

  // ---------------------------------------------------------------------
  // replace()
  // ---------------------------------------------------------------------

  /** `s.replace(pat, rep)`: non-overlapping occurrences, left to right. */
  function ReplaceAll(s: string, pat: string, rep: string): string
    requires pat != []
    decreases |s|
  {
    if |s| < |pat| then s
    else if s[..|pat|] == pat then rep + ReplaceAll(s[|pat|..], pat, rep)
    else [s[0]] + ReplaceAll(s[1..], pat, rep)
  }

  /** Replacing a one-character pattern changes each character on its own. */
  lemma {:induction false} ReplaceCharPointwise(s: string, a: char, b: char)
    ensures |ReplaceAll(s, [a], [b])| == |s|
    ensures forall i :: 0 <= i < |s| ==>
      ReplaceAll(s, [a], [b])[i] == (if s[i] == a then b else s[i])
    decreases |s|
  {
    if s != [] {
      ReplaceCharPointwise(s[1..], a, b);
      assert s[..1] == [s[0]];
    }
  }

  // ---------------------------------------------------------------------
  // split(), split(c) and c.join()
  // ---------------------------------------------------------------------

  /** The maximal runs of characters that are not separators, in order:
      `s.split()` when `sep` is `IsSpace`. */
  function Fields(s: string, sep: char -> bool): (r: seq<string>)
    ensures forall i :: 0 <= i < |r| ==> r[i] != []
    ensures forall i, j :: 0 <= i < |r| && 0 <= j < |r[i]| ==> !sep(r[i][j])
    ensures s != [] && !sep(s[0]) ==> r != [] && r[0][0] == s[0]
    decreases |s|
  {
    if s == [] then []
    else
      var rest := Fields(s[1..], sep);
      if sep(s[0]) then rest
      else if |s| == 1 || sep(s[1]) then [[s[0]]] + rest
      else
        var r := [[s[0]] + rest[0]] + rest[1..];
        assert forall i :: 1 <= i < |r| ==> r[i] == rest[i];
        r
  }

  /** `s.split()` with no argument. */
  function Words(s: string): seq<string> {
    Fields(s, IsSpace)
  }

  /** Two strings with separators at the same positions and the same
      characters elsewhere have the same fields. */
  lemma {:induction false} FieldsCongruent(s: string, t: string, sepS: char -> bool, sepT: char -> bool)
    requires |s| == |t|
    requires forall i :: 0 <= i < |s| ==> (sepS(s[i]) <==> sepT(t[i]))
    requires forall i :: 0 <= i < |s| && !sepS(s[i]) ==> s[i] == t[i]
    ensures Fields(s, sepS) == Fields(t, sepT)
    decreases |s|
  {
    if s != [] {
      FieldsCongruent(s[1..], t[1..], sepS, sepT);
    }
  }

  /** A trailing separator does not make a field. */
  lemma {:induction false} FieldsTrailingSep(s: string, c: char, sep: char -> bool)
    requires sep(c)
    ensures Fields(s + [c], sep) == Fields(s, sep)
    decreases |s|
  {
    if s == [] {
      var one: string := [c];
      assert s + [c] == one && one[1..] == [];
    } else {
      assert (s + [c])[1..] == s[1..] + [c];
      FieldsTrailingSep(s[1..], c, sep);
    }
  }

  /** Separators at the start or the end do not make fields, so stripping
      whitespace first changes nothing when whitespace separates. */
  lemma {:induction false} FieldsDropLeading(s: string, n: nat, sep: char -> bool)
    requires n <= |s| && forall i :: 0 <= i < n ==> sep(s[i])
    ensures Fields(s[n..], sep) == Fields(s, sep)
    decreases n
  {
    if n > 0 {
      assert s[1..][n - 1..] == s[n..];
      FieldsDropLeading(s[1..], n - 1, sep);
    }
  }

  lemma {:induction false} FieldsDropTrailing(s: string, n: nat, sep: char -> bool)
    requires n <= |s| && forall i :: n <= i < |s| ==> sep(s[i])
    ensures Fields(s[..n], sep) == Fields(s, sep)
    decreases |s| - n
  {
    if n < |s| {
      var init := s[..|s| - 1];
      assert init[..n] == s[..n];
      FieldsDropTrailing(init, n, sep);
      FieldsTrailingSep(init, s[|s| - 1], sep);
      assert init + [s[|s| - 1]] == s;
    } else {
      assert s[..n] == s;
    }
  }

  lemma FieldsStrip(s: string, sep: char -> bool)
    requires forall c :: IsSpace(c) ==> sep(c)
    ensures Fields(Strip(s), sep) == Fields(s, sep)
  {
    var a, r := LeadingSpace(s), Strip(s);
    StripMargins(s);
    FieldsDropLeading(s, a, sep);
    StripOfRest(s, a, r);
    FieldsDropTrailing(s[a..], |r|, sep);
  }

  /** What `strip()` keeps is a prefix of what follows the leading
      whitespace, and only whitespace follows it. */
  lemma StripOfRest(s: string, a: nat, r: string)
    requires a + |r| <= |s| && forall i :: 0 <= i < |r| ==> r[i] == s[a + i]
    requires forall i :: a + |r| <= i < |s| ==> IsSpace(s[i])
    ensures |r| <= |s[a..]| && s[a..][..|r|] == r
    ensures forall i :: |r| <= i < |s[a..]| ==> IsSpace(s[a..][i])
  {
    var rest := s[a..];
    forall i | 0 <= i < |r| ensures rest[..|r|][i] == r[i] {
      assert r[i] == s[a + i];
    }
    assert rest[..|r|] == r;
    forall i | |r| <= i < |rest| ensures IsSpace(rest[i]) {
      assert rest[i] == s[a + i];
    }
  }

  /** Collapsing a double separator into one keeps the fields:
      `s.replace('  ', ' ')` is invisible to `split()`. */
  lemma {:induction false} FieldsCollapseDouble(s: string, sep: char -> bool)
    requires sep(' ')
    ensures Fields(ReplaceAll(s, "  ", " "), sep) == Fields(s, sep)
    ensures |ReplaceAll(s, "  ", " ")| == 0 <==> |s| == 0
    ensures s != [] ==> ReplaceAll(s, "  ", " ")[0] == s[0]
    decreases |s|
  {
    var r := ReplaceAll(s, "  ", " ");
    if |s| < 2 {
    } else if s[..2] == "  " {
      FieldsCollapseDouble(s[2..], sep);
      var r2 := ReplaceAll(s[2..], "  ", " ");
      assert r == " " + r2;
      assert r[1..] == r2;
      assert s[1..][1..] == s[2..];
      assert s[0] == ' ' && s[1] == ' ';
    } else {
      FieldsCollapseDouble(s[1..], sep);
      var r1 := ReplaceAll(s[1..], "  ", " ");
      assert r == [s[0]] + r1;
      assert r[1..] == r1;
    }
  }

  /** A field that ends at a separator comes first. */
  lemma {:induction false} FieldsCons(w: string, c: char, t: string, sep: char -> bool)
    requires w != [] && sep(c)
    requires forall i :: 0 <= i < |w| ==> !sep(w[i])
    ensures Fields(w + [c] + t, sep) == [w] + Fields(t, sep)
    decreases |w|
  {
    var s := w + [c] + t;
    assert s[1..] == w[1..] + [c] + t;
    if |w| == 1 {
      assert s[1..] == [c] + t;
      assert ([c] + t)[1..] == t;
      assert s[0] == w[0] && w == [w[0]];
    } else {
      FieldsCons(w[1..], c, t, sep);
      assert s[1] == w[1];
      assert [w[0]] + w[1..] == w;
    }
  }

  /** A string without separators is one field. */
  lemma {:induction false} FieldsSingle(w: string, sep: char -> bool)
    requires w != []
    requires forall i :: 0 <= i < |w| ==> !sep(w[i])
    ensures Fields(w, sep) == [w]
    decreases |w|
  {
    if |w| > 1 {
      FieldsSingle(w[1..], sep);
      assert !sep(w[0]) && !sep(w[1]);
      assert [w[0]] + w[1..] == w;
    } else {
      assert w == [w[0]];
    }
  }

  /** Fields never start at leading separators: a blank string has none. */
  lemma FieldsBlank(s: string, sep: char -> bool)
    requires forall c :: IsSpace(c) ==> sep(c)
    requires AllSpace(s)
    ensures Fields(s, sep) == []
  {
    FieldsStrip(s, sep);
  }

  /** `s.split(c)` for a one-character separator: never empty, and empty
      pieces are kept. */
  function SplitOn(s: string, c: char): (r: seq<string>)
    ensures |r| >= 1
    decreases |s|
  {
    if s == [] then [[]]
    else
      var rest := SplitOn(s[1..], c);
      if s[0] == c then [[]] + rest
      else [[s[0]] + rest[0]] + rest[1..]
  }

  /** `c.join(parts)`. */
  function Join(parts: seq<string>, c: char): string
    decreases |parts|
  {
    if parts == [] then []
    else if |parts| == 1 then parts[0]
    else parts[0] + [c] + Join(parts[1..], c)
  }

  lemma {:induction false} SplitOnPrefix(w: string, t: string, c: char)
    requires c !in w
    ensures SplitOn(w + t, c) == [w + SplitOn(t, c)[0]] + SplitOn(t, c)[1..]
    decreases |w|
  {
    if w == [] {
      assert w + t == t;
      assert w + SplitOn(t, c)[0] == SplitOn(t, c)[0];
    } else {
      assert (w + t)[1..] == w[1..] + t;
      SplitOnPrefix(w[1..], t, c);
      assert [w[0]] + (w[1..] + SplitOn(t, c)[0]) == w + SplitOn(t, c)[0];
    }
  }

  /** Splitting undoes joining when no part contains the separator. */
  lemma {:induction false} SplitOnJoin(parts: seq<string>, c: char)
    requires parts != []
    requires forall i :: 0 <= i < |parts| ==> c !in parts[i]
    ensures SplitOn(Join(parts, c), c) == parts
    decreases |parts|
  {
    if |parts| == 1 {
      SplitOnPrefix(parts[0], [], c);
      assert parts[0] + [] == parts[0];
    } else {
      var j := Join(parts[1..], c);
      SplitOnJoin(parts[1..], c);
      assert parts[0] + [c] + j == parts[0] + ([c] + j);
      SplitOnPrefix(parts[0], [c] + j, c);
      assert ([c] + j)[1..] == j;
      assert SplitOn([c] + j, c) == [[]] + SplitOn(j, c);
      assert parts[0] + [] == parts[0];
      assert parts == [parts[0]] + parts[1..];
    }
  }

  /** Every character of `c.join(parts)` is `c` or comes from a part. */
  lemma {:induction false} JoinChars(parts: seq<string>, c: char, p: char -> bool)
    requires forall i, j :: 0 <= i < |parts| && 0 <= j < |parts[i]| ==> p(parts[i][j])
    ensures forall k :: 0 <= k < |Join(parts, c)| ==> Join(parts, c)[k] == c || p(Join(parts, c)[k])
    decreases |parts|
  {
    if |parts| > 1 {
      JoinChars(parts[1..], c, p);
      var j := Join(parts[1..], c);
      var r := parts[0] + [c] + j;
      forall k | 0 <= k < |r| ensures r[k] == c || p(r[k]) {
        if k < |parts[0]| { assert r[k] == parts[0][k]; }
        else if k > |parts[0]| { assert r[k] == j[k - |parts[0]| - 1]; }
      }
    }
  }

  /** `rsplit('.', 1)[1]`: the text after the last dot. */
  function AfterLastDot(s: string): (r: string)
    requires '.' in s
    ensures '.' !in r
    ensures |r| < |s| && s[|s| - |r| - 1] == '.' && r == s[|s| - |r|..]
    decreases |s|
  {
    if s[|s| - 1] == '.' then []
    else
      var init := s[..|s| - 1];
      DotInInit(s);
      var q := AfterLastDot(init);
      SuffixExtend(s, init, q);
      q + [s[|s| - 1]]
  }

  lemma DotInInit(s: string)
    requires '.' in s && s[|s| - 1] != '.'
    ensures '.' in s[..|s| - 1]
  {
    var k :| 0 <= k < |s| && s[k] == '.';
    assert s[..|s| - 1][k] == '.';
  }

  lemma SuffixExtend(s: string, init: string, q: string)
    requires s != [] && init == s[..|s| - 1]
    requires |q| < |init| && q == init[|init| - |q|..] && init[|init| - |q| - 1] == '.'
    ensures s[|s| - |q| - 1..] == q + [s[|s| - 1]]
    ensures s[|s| - (|q| + 1) - 1] == '.'
  {
    var r := q + [s[|s| - 1]];
    forall i | 0 <= i < |r| ensures s[|s| - |r|..][i] == r[i] {
      if i < |q| { assert r[i] == init[|init| - |q| + i]; }
    }
    assert s[|s| - |r|..] == r;
  }

  // ---------------------------------------------------------------------
  // Ordering and sorted()
  // ---------------------------------------------------------------------

  /** Python's `a <= b` on strings: lexicographic by code point. */
  predicate LessEq(a: string, b: string)
    decreases |a|
  {
    a == [] || (b != [] && (a[0] < b[0] || (a[0] == b[0] && LessEq(a[1..], b[1..]))))
  }

  lemma {:induction false} LessEqTotal(a: string, b: string)
    ensures LessEq(a, b) || LessEq(b, a)
    decreases |a|
  {
    if a != [] && b != [] && a[0] == b[0] { LessEqTotal(a[1..], b[1..]); }
  }

  lemma {:induction false} LessEqTransitive(a: string, b: string, c: string)
    requires LessEq(a, b) && LessEq(b, c)
    ensures LessEq(a, c)
    decreases |a|
  {
    if a != [] && a[0] == b[0] && b[0] == c[0] {
      LessEqTransitive(a[1..], b[1..], c[1..]);
    }
  }

  ghost predicate Sorted(s: seq<string>) {
    forall i, j :: 0 <= i < j < |s| ==> LessEq(s[i], s[j])
  }

  function Insert(x: string, s: seq<string>): (r: seq<string>)
    requires Sorted(s)
    ensures Sorted(r)
    ensures multiset(r) == multiset(s) + multiset{x}
    decreases |s|
  {
    if s == [] then [x]
    else if LessEq(x, s[0]) then
      forall j | 0 <= j < |s| ensures LessEq(x, s[j]) {
        if j > 0 { LessEqTransitive(x, s[0], s[j]); }
      }
      SortedCons(x, s);
      [x] + s
    else
      LessEqTotal(x, s[0]);
      var rest := Insert(x, s[1..]);
      assert s == [s[0]] + s[1..];
      HeadBelow(x, s, rest);
      SortedCons(s[0], rest);
      [s[0]] + rest
  }

  /** A sorted sequence stays sorted under a new least element. */
  lemma SortedCons(y: string, rest: seq<string>)
    requires Sorted(rest)
    requires forall j :: 0 <= j < |rest| ==> LessEq(y, rest[j])
    ensures Sorted([y] + rest)
  {
    var r := [y] + rest;
    forall i, j | 0 <= i < j < |r| ensures LessEq(r[i], r[j]) {
      assert r[j] == rest[j - 1];
      if i > 0 { assert r[i] == rest[i - 1]; }
    }
  }

  /** The head of a sorted sequence is below everything in the rest, once
      a larger element is added. */
  lemma HeadBelow(x: string, s: seq<string>, rest: seq<string>)
    requires Sorted(s) && s != [] && LessEq(s[0], x)
    requires multiset(rest) == multiset(s[1..]) + multiset{x}
    ensures forall j :: 0 <= j < |rest| ==> LessEq(s[0], rest[j])
  {
    forall j | 0 <= j < |rest| ensures LessEq(s[0], rest[j]) {
      assert rest[j] in multiset(rest);
      if rest[j] != x {
        assert rest[j] in multiset(s[1..]);
        var k :| 0 <= k < |s[1..]| && s[1..][k] == rest[j];
        assert s[k + 1] == rest[j];
      }
    }
  }

  function Sort(xs: seq<string>): (r: seq<string>)
    ensures Sorted(r)
    ensures multiset(r) == multiset(xs)
    decreases |xs|
  {
    if xs == [] then []
    else
      var rest := Sort(xs[1..]);
      MultisetCons(xs);
      Insert(xs[0], rest)
  }

  lemma MultisetCons(xs: seq<string>)
    requires xs != []
    ensures multiset(xs) == multiset(xs[1..]) + multiset{xs[0]}
  {
    assert xs == [xs[0]] + xs[1..];
  }
}
