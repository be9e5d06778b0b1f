/** The exact part of agro.py: the option lists of the sidebar, the Talhão
    row filter and the interpolation-method fallback chain. A `griddata`
    call is a parameter: an oracle from a method name to the surface it
    produces or the message of the exception it raises. */
module Agro {
  import opened Wrappers
  import opened Seqs
  import opened Strings

  // ---------------------------------------------------------------------
  // The Talhão options (agro.py:47)
  // ---------------------------------------------------------------------

  /** The option that selects every Talhão. */
  const AllTalhoes: string := "Todos"

  /** `column.dropna().tolist()`: the values that are present, in order.
      A missing cell (NaN or None) is None. */
  function NonNull<T(!new)>(column: seq<Option<T>>): (r: seq<T>)
    ensures forall v :: v in r <==> Some(v) in column
    decreases |column|
  {
    if column == [] then []
    else
      var rest := NonNull(column[1..]);
      assert forall c :: c in column <==> c == column[0] || c in column[1..];
      if column[0].Some? then [column[0].value] + rest else rest
  }

  /** `map(str, xs)`, with `show` standing for `str` on the column's values. */
  function Shown<T>(xs: seq<T>, show: T -> string): (r: seq<string>)
    ensures |r| == |xs|
    ensures forall i :: 0 <= i < |xs| ==> r[i] == show(xs[i])
  {
    seq(|xs|, i requires 0 <= i < |xs| => show(xs[i]))
  }

  /** `['Todos'] + sorted(map(str, column.dropna().unique().tolist()))`. */
  function TalhaoOptions<T(==,!new)>(column: seq<Option<T>>, show: T -> string): (r: seq<string>)
    ensures |r| >= 1 && r[0] == AllTalhoes
    ensures Sorted(r[1..])
    ensures forall s :: s in r[1..] <==> exists v :: Some(v) in column && show(v) == s
    ensures multiset(r[1..]) == multiset(Shown(Distinct(NonNull(column)), show))
  {
    var values := Distinct(NonNull(column));
    var sorted := Sort(Shown(values, show));
    forall s ensures s in sorted <==> s in Shown(values, show) {
      assert s in sorted <==> s in multiset(sorted);
    }
    forall s ensures s in Shown(values, show) <==> exists v :: Some(v) in column && show(v) == s {
      if s in Shown(values, show) {
        var i :| 0 <= i < |values| && Shown(values, show)[i] == s;
        assert values[i] in values;
      }
      if v :| Some(v) in column && show(v) == s {
        assert v in values;
        var i :| 0 <= i < |values| && values[i] == v;
        assert Shown(values, show)[i] == s;
      }
    }
    var r := [AllTalhoes] + sorted;
    assert r[1..] == sorted;
    r
  }

  /** A sequence without repeats holds each value at most once. */
  lemma {:induction false} NoDuplicatesCount<T>(xs: seq<T>, v: T)
    requires NoDuplicates(xs)
    ensures multiset(xs)[v] <= 1
    decreases |xs|
  {
    if xs != [] {
      assert xs == [xs[0]] + xs[1..];
      assert NoDuplicates(xs[1..]) by {
        forall i, j | 0 <= i < j < |xs[1..]| ensures xs[1..][i] != xs[1..][j] {
          assert xs[1..][i] == xs[i + 1] && xs[1..][j] == xs[j + 1];
        }
      }
      NoDuplicatesCount(xs[1..], v);
      if xs[0] == v {
        assert v !in xs[1..] by {
          forall k | 0 <= k < |xs[1..]| ensures xs[1..][k] != v {
            assert xs[1..][k] == xs[k + 1];
          }
        }
      }
    }
  }

  /** Reordering keeps a sequence free of repeats. */
  lemma PermutationNoDuplicates<T>(xs: seq<T>, ys: seq<T>)
    requires NoDuplicates(xs) && multiset(ys) == multiset(xs)
    ensures NoDuplicates(ys)
  {
    forall i, j | 0 <= i < j < |ys| ensures ys[i] != ys[j] {
      if ys[i] == ys[j] {
        var v := ys[i];
        assert ys == ys[..j] + ys[j..];
        assert v in ys[..j] && v in ys[j..];
        assert multiset(ys)[v] == multiset(ys[..j])[v] + multiset(ys[j..])[v];
        NoDuplicatesCount(xs, v);
        assert false;
      }
    }
  }

  /** When `str` tells the column's values apart, every Talhão is offered
      exactly once after "Todos". */
  lemma TalhaoOptionsDistinct<T(!new)>(column: seq<Option<T>>, show: T -> string)
    requires forall v, w :: show(v) == show(w) ==> v == w
    ensures NoDuplicates(TalhaoOptions(column, show)[1..])
  {
    var values := Distinct(NonNull(column));
    var shown := Shown(values, show);
    assert NoDuplicates(shown) by {
      forall i, j | 0 <= i < j < |shown| ensures shown[i] != shown[j] {
        assert values[i] != values[j];
      }
    }
    var r := TalhaoOptions(column, show);
    assert r[1..] == Sort(shown);
    PermutationNoDuplicates(shown, Sort(shown));
  }

  // ---------------------------------------------------------------------
  // The element list (agro.py:55-60)
  // ---------------------------------------------------------------------

  /** The fixed elements, in the order they are offered. */
  const Elements: seq<string> := ["N", "Mg", "Ca_Mg", "P", "pH", "CTC"]

  function PresentIn(columns: set<string>): string -> bool {
    (e: string) => e in columns
  }

  /** The elements the spreadsheet has a column for, in the fixed order;
      None where there is none and the run stops with an error. */
  function ElementList(columns: set<string>): (r: Option<seq<string>>)
    ensures r.None? <==> forall i :: 0 <= i < |Elements| ==> Elements[i] !in columns
    ensures r.Some? ==> r.value != [] && IsSubsequence(r.value, Elements)
    ensures r.Some? ==> forall e :: e in r.value <==> e in Elements && e in columns
  {
    var present := Filter(Elements, PresentIn(columns));
    if present == [] then
      assert forall i :: 0 <= i < |Elements| ==> Elements[i] !in present;
      None
    else
      Some(present)
  }

  /** With every element present the whole fixed list is offered. */
  lemma ElementListComplete(columns: set<string>)
    requires forall i :: 0 <= i < |Elements| ==> Elements[i] in columns
    ensures ElementList(columns) == Some(Elements)
  {
    FilterAll(Elements, PresentIn(columns));
  }

  /** Extra columns change nothing: only the fixed elements are looked up. */
  lemma ElementListOnlyFixed(columns: set<string>, extra: set<string>)
    requires forall i :: 0 <= i < |Elements| ==> Elements[i] !in extra
    ensures ElementList(columns + extra) == ElementList(columns)
  {
    FilterCongruent(Elements, PresentIn(columns + extra), PresentIn(columns));
  }

  lemma {:induction false} FilterCongruent<T(!new)>(xs: seq<T>, p: T -> bool, q: T -> bool)
    requires forall i :: 0 <= i < |xs| ==> p(xs[i]) == q(xs[i])
    ensures Filter(xs, p) == Filter(xs, q)
    decreases |xs|
  {
    if xs != [] { FilterCongruent(xs[1..], p, q); }
  }

  // ---------------------------------------------------------------------
  // The Talhão row filter (agro.py:87-95)
  // ---------------------------------------------------------------------

  /** `df['Talhão'].astype(str)` on one cell: a missing value reads "nan". */
  function TalhaoText<T>(cell: Option<T>, show: T -> string): (s: string)
    ensures cell.None? ==> s == "nan"
    ensures cell.Some? ==> s == show(cell.value)
  {
    if cell.None? then "nan" else show(cell.value)
  }

  /** `.str.contains(selected, case=False)` on one cell's text. */
  predicate MatchesTalhao(text: string, selected: string) {
    Contains(Lower(text), Lower(selected))
  }

  function Matching<R>(talhao: R -> string, selected: string): R -> bool {
    (row: R) => MatchesTalhao(talhao(row), selected)
  }

  /** The rows kept by the Talhão selector, where `talhao` gives a row's
      Talhão text; None where none is left and the run stops with a
      warning. */
  function FilterTalhao<R(!new)>(rows: seq<R>, talhao: R -> string, selected: string): (r: Option<seq<R>>)
    ensures selected == AllTalhoes ==> (r.None? <==> rows == [])
    ensures selected == AllTalhoes && rows != [] ==> r == Some(rows)
    ensures r.Some? ==> r.value != [] && IsSubsequence(r.value, rows)
    ensures selected != AllTalhoes && r.Some? ==>
      forall row :: row in r.value <==> row in rows && MatchesTalhao(talhao(row), selected)
    ensures selected != AllTalhoes && r.Some? ==>
      forall row :: multiset(r.value)[row] == if MatchesTalhao(talhao(row), selected) then multiset(rows)[row] else 0
    ensures selected != AllTalhoes ==>
      (r.None? <==> forall i :: 0 <= i < |rows| ==> !MatchesTalhao(talhao(rows[i]), selected))
  {
    if selected == AllTalhoes then
      SubsequenceReflexive(rows);
      if rows == [] then None else Some(rows)
    else
      var kept := Filter(rows, Matching(talhao, selected));
      FilterCounts(rows, Matching(talhao, selected));
      if kept == [] then
        assert forall i :: 0 <= i < |rows| ==> rows[i] !in kept;
        None
      else
        Some(kept)
  }

  lemma {:induction false} SubsequenceReflexive<T>(xs: seq<T>)
    ensures IsSubsequence(xs, xs)
    decreases |xs|
  {
    if xs != [] { SubsequenceReflexive(xs[1..]); }
  }

  /** Every string contains itself. */
  lemma ContainsSelf(s: string)
    ensures Contains(s, s)
  {
    assert s[0..] == s;
    assert IsPrefix(s, s[0..]);
  }

  /** A row whose Talhão text equals the selection up to case is kept: the
      option chosen from the list selects at least its own rows. */
  lemma FilterTalhaoKeepsOwnRows<R(!new)>(rows: seq<R>, talhao: R -> string, selected: string, k: nat)
    requires k < |rows| && Lower(talhao(rows[k])) == Lower(selected)
    ensures FilterTalhao(rows, talhao, selected).Some?
    ensures rows[k] in FilterTalhao(rows, talhao, selected).value
  {
    ContainsSelf(Lower(selected));
    assert MatchesTalhao(talhao(rows[k]), selected);
  }

  /** The Talhão text of every row: `astype(str)` of its Talhão cell. */
  function CellText<R(!new), T>(cell: R -> Option<T>, show: T -> string): (text: R -> string)
    ensures forall row :: text(row) == TalhaoText(cell(row), show)
  {
    (row: R) => TalhaoText(cell(row), show)
  }

  /** `df[df['Talhão'].astype(str).str.contains(selected, case=False)]` on
      rows whose Talhão cell may be missing; None where no row is left. */
  function FilterTalhaoCells<R(!new), T>(rows: seq<R>, cell: R -> Option<T>, show: T -> string, selected: string): (r: Option<seq<R>>)
    ensures selected != AllTalhoes && r.Some? ==>
      forall row :: row in r.value <==> row in rows && MatchesTalhao(TalhaoText(cell(row), show), selected)
    ensures selected != AllTalhoes && r.Some? ==>
      forall row :: multiset(r.value)[row] == if MatchesTalhao(TalhaoText(cell(row), show), selected) then multiset(rows)[row] else 0
    ensures selected != AllTalhoes ==>
      (r.None? <==> forall i :: 0 <= i < |rows| ==> !MatchesTalhao(TalhaoText(cell(rows[i]), show), selected))
    ensures selected == AllTalhoes ==> r == if rows == [] then None else Some(rows)
  {
    FilterTalhao(rows, CellText(cell, show), selected)
  }

  /** A row without a Talhão reads "nan" after `astype(str)`, so a specific
      selection keeps it exactly when the selection, ignoring case, occurs
      in "nan": choosing "A" or "n" keeps every row without a Talhão. */
  lemma MissingTalhao<R(!new), T>(rows: seq<R>, cell: R -> Option<T>, show: T -> string, selected: string, k: nat)
    requires k < |rows| && cell(rows[k]).None? && selected != AllTalhoes
    ensures MatchesTalhao("nan", selected) ==>
      FilterTalhaoCells(rows, cell, show, selected).Some? && rows[k] in FilterTalhaoCells(rows, cell, show, selected).value
    ensures !MatchesTalhao("nan", selected) && FilterTalhaoCells(rows, cell, show, selected).Some? ==>
      rows[k] !in FilterTalhaoCells(rows, cell, show, selected).value
  {
    var text := CellText(cell, show);
    assert text(rows[k]) == "nan";
  }

  /** Choosing a Talhão named "A" keeps every row without a Talhão, since
      "a" occurs in "nan". */
  lemma ChoosingAKeepsMissing<R(!new), T>(rows: seq<R>, cell: R -> Option<T>, show: T -> string, k: nat)
    requires k < |rows| && cell(rows[k]).None?
    ensures FilterTalhaoCells(rows, cell, show, "A").Some?
    ensures rows[k] in FilterTalhaoCells(rows, cell, show, "A").value
  {
    assert Lower("A") == "a" && Lower("nan") == "nan";
    ContainsAt("nan", "a", 1);
    MissingTalhao(rows, cell, show, "A", k);
  }

  /** A Talhão column that already holds text. */
  function Identity(s: string): string { s }

  /** The match is lenient: a row is kept when its text merely contains the
      selection, so "1" keeps the rows of "10" and "T1" alike. */
  lemma FilterTalhaoLenient()
    ensures FilterTalhao(["10", "T1", "2"], Identity, "1") == Some(["10", "T1"])
  {
    LenientRows(["10", "T1", "2"]);
  }

  lemma LenientRows(rows: seq<string>)
    requires rows == ["10", "T1", "2"]
    ensures Filter(rows, Matching(Identity, "1")) == ["10", "T1"]
  {
    var p := Matching(Identity, "1");
    MatchesTen("10");
    MatchesTeeOne("T1");
    MissesTwo("2");
    assert p(rows[0]) && p(rows[1]) && !p(rows[2]);
    assert rows[1..] == ["T1", "2"] && rows[1..][1..] == ["2"] && rows[1..][1..][1..] == [];
    assert Filter(rows[1..][1..], p) == [];
    assert Filter(rows[1..], p) == ["T1"];
  }

  lemma MatchesTen(s: string)
    requires s == "10"
    ensures MatchesTalhao(s, "1") && Matching(Identity, "1")(s)
  {
    MatchingIdentity(s, "1");
    LowerOne("1");
    assert Lower(s) == "10";
    ContainsAt("10", "1", 0);
  }

  lemma MatchesTeeOne(s: string)
    requires s == "T1"
    ensures MatchesTalhao(s, "1") && Matching(Identity, "1")(s)
  {
    MatchingIdentity(s, "1");
    LowerOne("1");
    assert Lower(s)[0] == 't';
    assert Lower(s) == "t1";
    ContainsAt("t1", "1", 1);
  }

  lemma MissesTwo(s: string)
    requires s == "2"
    ensures !MatchesTalhao(s, "1") && !Matching(Identity, "1")(s)
  {
    MatchingIdentity(s, "1");
    LowerOne("1");
    assert Lower(s) == "2";
    forall i | 0 <= i <= 1 ensures !IsPrefix("1", "2"[i..]) {
      if i == 0 { assert "2"[0..][..1][0] == '2'; }
    }
  }

  lemma MatchingIdentity(s: string, selected: string)
    ensures Matching(Identity, selected)(s) == MatchesTalhao(s, selected)
  {
    var f: string -> string := Identity;
    assert f(s) == s;
  }

  lemma LowerOne(s: string)
    requires s == "1"
    ensures Lower(s) == "1"
  {
  }

  lemma ContainsAt(s: string, pat: string, i: nat)
    requires i <= |s| && IsPrefix(pat, s[i..])
    ensures Contains(s, pat)
  {
  }

  // ---------------------------------------------------------------------
  // Interpolation with fallback (agro.py:158-184)
  // ---------------------------------------------------------------------

  /** What one `griddata` call does: return a surface or raise. */
  datatype GridResult<Z> = Grid(z: Z) | Raised(message: string)

  /** The triple `(zi, method, err)` returned by `interp_with_fallback`. */
  datatype Attempt<Z> = Attempt(z: Option<Z>, used: string, err: Option<string>)

  /** `interp_with_fallback(method)`, with `griddata` the oracle: exactly one
      of the surface and the error message is present, and the method is
      echoed. */
  function InterpWithFallback<Z>(griddata: string -> GridResult<Z>, name: string): (a: Attempt<Z>)
    ensures a.used == name
    ensures a.z.Some? <==> a.err.None?
    ensures griddata(name).Grid? ==> a.z == Some(griddata(name).z)
    ensures griddata(name).Raised? ==> a.err == Some(griddata(name).message)
  {
    match griddata(name)
    case Grid(z) => Attempt(Some(z), name, None)
    case Raised(e) => Attempt(None, name, Some(e))
  }

  predicate Succeeds<Z>(griddata: string -> GridResult<Z>, name: string) {
    griddata(name).Grid?
  }

  /** The methods in the order the chain may try them: the chosen one,
      then "linear" unless it was the chosen one, then "nearest". */
  function Candidates(chosen: string): (r: seq<string>)
    ensures |r| >= 2 && r[0] == chosen && r[|r| - 1] == "nearest"
    ensures "linear" in r
    ensures |r| == if chosen == "linear" then 2 else 3
  {
    if chosen != "linear" then [chosen, "linear", "nearest"] else [chosen, "nearest"]
  }

  /** The methods tried, in order: the candidates up to and including the
      first that succeeds. */
  function TriedUntilSuccess<Z>(griddata: string -> GridResult<Z>, candidates: seq<string>): (r: seq<string>)
    requires candidates != []
    ensures 1 <= |r| <= |candidates| && r == candidates[..|r|]
    ensures forall i :: 0 <= i < |r| - 1 ==> !Succeeds(griddata, r[i])
    ensures |r| < |candidates| ==> Succeeds(griddata, r[|r| - 1])
    decreases |candidates|
  {
    if |candidates| == 1 || Succeeds(griddata, candidates[0]) then [candidates[0]]
    else
      var rest := TriedUntilSuccess(griddata, candidates[1..]);
      var r := [candidates[0]] + rest;
      assert forall i :: 1 <= i < |r| ==> r[i] == rest[i - 1];
      r
  }

  /** The methods the chain tries for the chosen method. */
  function Tried<Z>(griddata: string -> GridResult<Z>, chosen: string): seq<string> {
    TriedUntilSuccess(griddata, Candidates(chosen))
  }

  /** What the chain ends with: the result of its last attempt. */
  function Outcome<Z>(griddata: string -> GridResult<Z>, chosen: string): Attempt<Z> {
    var tried := Tried(griddata, chosen);
    InterpWithFallback(griddata, tried[|tried| - 1])
  }

  /** The chain of agro.py:171-179: try the chosen method, on failure
      "linear" unless it was the chosen one, and on failure still "nearest".
      `tried` records the calls made. */
  method InterpolateWithFallback<Z>(griddata: string -> GridResult<Z>, chosen: string)
    returns (z: Option<Z>, used: string, err: Option<string>, ghost tried: seq<string>)
    ensures tried == Tried(griddata, chosen)
    ensures Attempt(z, used, err) == Outcome(griddata, chosen)
  {
    var a := InterpWithFallback(griddata, chosen);
    z, used, err := a.z, a.used, a.err;
    tried := [chosen];
    if z.None? {
      if chosen != "linear" {
        a := InterpWithFallback(griddata, "linear");
        z, used, err := a.z, a.used, a.err;
        tried := tried + ["linear"];
      }
      if z.None? {
        a := InterpWithFallback(griddata, "nearest");
        z, used, err := a.z, a.used, a.err;
        tried := tried + ["nearest"];
      }
    }
    assert Candidates(chosen)[1..][1..] == Candidates(chosen)[2..];
  }

  /** A chosen method that succeeds is the only one tried and is used. */
  lemma ChosenSucceeds<Z>(griddata: string -> GridResult<Z>, chosen: string)
    requires Succeeds(griddata, chosen)
    ensures Tried(griddata, chosen) == [chosen]
    ensures Outcome(griddata, chosen) == Attempt(Some(griddata(chosen).z), chosen, None)
  {
  }

  /** "linear" is tried second exactly when the chosen method failed and
      was not "linear" itself. */
  lemma LinearTriedSecond<Z>(griddata: string -> GridResult<Z>, chosen: string)
    ensures var t := Tried(griddata, chosen);
      (|t| >= 2 && t[1] == "linear") <==> (!Succeeds(griddata, chosen) && chosen != "linear")
  {
  }

  /** "nearest" is tried after the chosen method only when every earlier
      attempt failed. */
  lemma NearestTriedLast<Z>(griddata: string -> GridResult<Z>, chosen: string)
    ensures var t := Tried(griddata, chosen);
      (|t| >= 2 && t[|t| - 1] == "nearest") <==>
      (forall i :: 0 <= i < |Candidates(chosen)| - 1 ==> !Succeeds(griddata, Candidates(chosen)[i]))
  {
    var c := Candidates(chosen);
    var t := Tried(griddata, chosen);
    if forall i :: 0 <= i < |c| - 1 ==> !Succeeds(griddata, c[i]) {
      assert |t| == |c|;
    }
  }

  /** A failing "nearest" chosen by the user is tried twice, with "linear"
      in between. */
  lemma NearestRetried<Z>(griddata: string -> GridResult<Z>)
    requires !Succeeds(griddata, "nearest") && !Succeeds(griddata, "linear")
    ensures Tried(griddata, "nearest") == ["nearest", "linear", "nearest"]
  {
  }

  /** On success the surface comes from the chosen method, from "linear"
      or from "nearest", whichever was tried last. */
  lemma UsedMethod<Z>(griddata: string -> GridResult<Z>, chosen: string)
    ensures var o := Outcome(griddata, chosen);
      o.z.Some? ==> o.used in {chosen, "linear", "nearest"} && Succeeds(griddata, o.used)
  {
  }

  /** The run stops exactly when every attempt failed, and it then reports
      the error of "nearest", the last attempt. */
  lemma StopsIffAllFail<Z>(griddata: string -> GridResult<Z>, chosen: string)
    ensures var o := Outcome(griddata, chosen);
      o.z.None? <==> forall i :: 0 <= i < |Candidates(chosen)| ==> !Succeeds(griddata, Candidates(chosen)[i])
    ensures var o := Outcome(griddata, chosen);
      o.z.None? ==> o.used == "nearest" && o.err == Some(griddata("nearest").message)
  {
    var c := Candidates(chosen);
    var t := Tried(griddata, chosen);
    if forall i :: 0 <= i < |c| ==> !Succeeds(griddata, c[i]) {
      assert |t| == |c|;
    }
  }
}
