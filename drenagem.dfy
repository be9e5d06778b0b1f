/** The GeoJSON helpers of the drainage dashboard `ac_drenagem8.py`: the
    Git LFS pointer test, the walk over the positions of a geometry (the
    shapes of section 3.1 of RFC 7946), the bounding box of a feature
    collection and the area/neighbourhood filter. Coordinates are integers;
    only their order matters here. */
module Drenagem {

  import opened Wrappers
  import opened Seqs
  import opened Strings

  // ---------------------------------------------------------------------
  // _is_git_lfs_pointer
  // ---------------------------------------------------------------------

  const LfsMarker: string := "git-lfs.github.com/spec"

  /** `"git-lfs.github.com/spec" in txt_head`. */
  function IsGitLfsPointer(head: string): (b: bool)
    ensures b <==> exists i :: 0 <= i <= |head| && IsPrefix(LfsMarker, head[i..])
  {
    Contains(head, LfsMarker)
  }

  /** A text with the marker anywhere in it is a pointer. */
  lemma GitLfsPointerInfix(before: string, after: string)
    ensures IsGitLfsPointer(before + LfsMarker + after)
  {
    var s := before + LfsMarker + after;
    assert s[|before|..][..|LfsMarker|] == LfsMarker;
  }

  /** A text shorter than the marker is not. */
  lemma GitLfsPointerShort(head: string)
    requires |head| < |LfsMarker|
    ensures !IsGitLfsPointer(head)
  {
  }

  /** The first line of a Git LFS pointer file. */
  lemma GitLfsPointerExample()
    ensures IsGitLfsPointer("version https://git-lfs.github.com/spec/v1")
  {
    assert "version https://git-lfs.github.com/spec/v1" == "version https://" + LfsMarker + "/v1";
    GitLfsPointerInfix("version https://", "/v1");
  }

  // ---------------------------------------------------------------------
  // Geometries and _iter_coords
  // ---------------------------------------------------------------------

  /** A GeoJSON position: its numbers, longitude first. */
  type Position = seq<int>

  /** The geometry objects of RFC 7946, by their `type` member, and any
      other `type` value. */
  datatype Geometry =
    | Point(position: Position)
    | MultiPoint(points: seq<Position>)
    | LineString(points: seq<Position>)
    | MultiLineString(lines: seq<seq<Position>>)
    | Polygon(rings: seq<seq<Position>>)
    | MultiPolygon(polygons: seq<seq<seq<Position>>>)
    | GeometryCollection(geometries: seq<Geometry>)
    | Other(kind: string)

  /** The number of positions a geometry holds, counted shape by shape. */
  function LeafCount(g: Geometry): nat
    decreases g
  {
    match g
    case Point(_) => 1
    case MultiPoint(ps) => |ps|
    case LineString(ps) => |ps|
    case MultiLineString(ls) => TotalLength(ls)
    case Polygon(rs) => TotalLength(rs)
    case MultiPolygon(pss) => SumCounts(seq(|pss|, i requires 0 <= i < |pss| => TotalLength(pss[i])))
    case GeometryCollection(gs) => SumCounts(seq(|gs|, i requires 0 <= i < |gs| => LeafCount(gs[i])))
    case Other(_) => 0
  }

  function SumCounts(ns: seq<nat>): nat
    decreases |ns|
  {
    if ns == [] then 0 else ns[0] + SumCounts(ns[1..])
  }

  /** `list(_iter_coords(geom))`: the positions in document order. A missing
      or empty geometry (`None`) and an unknown type give nothing. */
  function IterCoords(geom: Option<Geometry>): (r: seq<Position>)
    ensures geom.None? ==> r == []
  {
    match geom
    case None => []
    case Some(g) => Coords(g)
  }

  function Coords(g: Geometry): (r: seq<Position>)
    ensures |r| == LeafCount(g)
    decreases g
  {
    match g
    case Point(p) => [p]
    case MultiPoint(ps) => ps
    case LineString(ps) => ps
    case MultiLineString(ls) => FlattenLength(ls); Flatten(ls)
    case Polygon(rs) => FlattenLength(rs); Flatten(rs)
    case MultiPolygon(pss) =>
      var polys := seq(|pss|, i requires 0 <= i < |pss| => Flatten(pss[i]));
      PolygonsLength(pss, polys);
      Flatten(polys)
    case GeometryCollection(gs) =>
      var parts := seq(|gs|, i requires 0 <= i < |gs| => Coords(gs[i]));
      CollectionLength(gs, parts);
      Flatten(parts)
    case Other(_) => []
  }

  lemma PolygonsLength(pss: seq<seq<seq<Position>>>, polys: seq<seq<Position>>)
    requires |polys| == |pss|
    requires forall i :: 0 <= i < |pss| ==> polys[i] == Flatten(pss[i])
    ensures |Flatten(polys)| == SumCounts(seq(|pss|, i requires 0 <= i < |pss| => TotalLength(pss[i])))
  {
    FlattenLength(polys);
    var counts := seq(|pss|, i requires 0 <= i < |pss| => TotalLength(pss[i]));
    forall i | 0 <= i < |pss| ensures |polys[i]| == counts[i] {
      FlattenLength(pss[i]);
    }
    TotalLengthSum(polys, counts);
  }

  lemma CollectionLength(gs: seq<Geometry>, parts: seq<seq<Position>>)
    requires |parts| == |gs|
    requires forall i :: 0 <= i < |gs| ==> |parts[i]| == LeafCount(gs[i])
    ensures |Flatten(parts)| == SumCounts(seq(|gs|, i requires 0 <= i < |gs| => LeafCount(gs[i])))
  {
    FlattenLength(parts);
    TotalLengthSum(parts, seq(|gs|, i requires 0 <= i < |gs| => LeafCount(gs[i])));
  }

  lemma {:induction false} TotalLengthSum<T>(xss: seq<seq<T>>, counts: seq<nat>)
    requires |xss| == |counts|
    requires forall i :: 0 <= i < |xss| ==> |xss[i]| == counts[i]
    ensures TotalLength(xss) == SumCounts(counts)
    decreases |xss|
  {
    if xss != [] {
      TotalLengthSum(xss[1..], counts[1..]);
    }
  }

  /** Each position of a multi-polygon comes from one of its rings. */
  lemma MultiPolygonPositions(pss: seq<seq<seq<Position>>>, p: Position)
    ensures p in Coords(MultiPolygon(pss)) <==>
      exists i, j :: 0 <= i < |pss| && 0 <= j < |pss[i]| && p in pss[i][j]
  {
    var polys := seq(|pss|, i requires 0 <= i < |pss| => Flatten(pss[i]));
    assert forall i :: 0 <= i < |pss| ==> polys[i] == Flatten(pss[i]);
  }

  // ---------------------------------------------------------------------
  // Features and _bounds_from_geojson
  // ---------------------------------------------------------------------

  /** The JSON values a feature property can hold here. */
  datatype Json = JNull | JBool(b: bool) | JNumber(n: int) | JString(str: string)

  /** A feature: its `properties` member (absent reads as `{}`, JSON null as
      None) and its `geometry` member (absent, null or `{}` as None). */
  datatype Feature = Feature(properties: Option<map<string, Json>>, geometry: Option<Geometry>)

  /** The result of `_bounds_from_geojson`: None, the box, or the
      ValueError that unpacking `x, y` raises on a position that does not
      have exactly two numbers. */
  datatype Bounds =
    | NoBounds
    | Box(minx: int, miny: int, maxx: int, maxy: int)
    | UnpackError

  /** Every position of every feature, in order. */
  function AllCoords(features: seq<Feature>): (r: seq<Position>)
    ensures forall p :: p in r <==> exists i :: 0 <= i < |features| && p in IterCoords(features[i].geometry)
    decreases |features|
  {
    if features == [] then []
    else
      var r := IterCoords(features[0].geometry) + AllCoords(features[1..]);
      assert forall i :: 1 <= i < |features| ==> features[i] == features[1..][i - 1];
      r
  }

  lemma {:induction false} AllCoordsAppend(fs: seq<Feature>, gs: seq<Feature>)
    ensures AllCoords(fs + gs) == AllCoords(fs) + AllCoords(gs)
    decreases |fs|
  {
    if fs == [] {
      assert fs + gs == gs;
    } else {
      assert (fs + gs)[1..] == fs[1..] + gs;
      AllCoordsAppend(fs[1..], gs);
    }
  }

  function Xs(ps: seq<Position>): (r: seq<int>)
    requires forall i :: 0 <= i < |ps| ==> |ps[i]| == 2
    ensures |r| == |ps| && forall i :: 0 <= i < |ps| ==> r[i] == ps[i][0]
  {
    seq(|ps|, i requires 0 <= i < |ps| => ps[i][0])
  }

  function Ys(ps: seq<Position>): (r: seq<int>)
    requires forall i :: 0 <= i < |ps| ==> |ps[i]| == 2
    ensures |r| == |ps| && forall i :: 0 <= i < |ps| ==> r[i] == ps[i][1]
  {
    seq(|ps|, i requires 0 <= i < |ps| => ps[i][1])
  }

  /** The box a sequence of positions spans. */
  function BoxOf(ps: seq<Position>): (b: Bounds)
  {
    if exists i :: 0 <= i < |ps| && |ps[i]| != 2 then UnpackError
    else if ps == [] then NoBounds
    else Box(Min(Xs(ps)), Min(Ys(ps)), Max(Xs(ps)), Max(Ys(ps)))
  }

  /** None exactly when no feature has a position (and none is malformed). */
  lemma BoxOfEmpty(ps: seq<Position>)
    ensures BoxOf(ps) == NoBounds <==> ps == []
  {
  }

  /** The box holds every position, and each side touches one. */
  lemma BoxOfEncloses(ps: seq<Position>)
    requires BoxOf(ps).Box?
    ensures var b := BoxOf(ps);
      && (forall i :: 0 <= i < |ps| ==> b.minx <= ps[i][0] <= b.maxx && b.miny <= ps[i][1] <= b.maxy)
      && (exists i :: 0 <= i < |ps| && ps[i][0] == b.minx)
      && (exists i :: 0 <= i < |ps| && ps[i][1] == b.miny)
      && (exists i :: 0 <= i < |ps| && ps[i][0] == b.maxx)
      && (exists i :: 0 <= i < |ps| && ps[i][1] == b.maxy)
  {
    var b := BoxOf(ps);
    var xs, ys := Xs(ps), Ys(ps);
    assert forall i :: 0 <= i < |ps| ==> xs[i] == ps[i][0] && ys[i] == ps[i][1];
    var a :| 0 <= a < |xs| && xs[a] == b.minx;
    var c :| 0 <= c < |ys| && ys[c] == b.miny;
    var d :| 0 <= d < |xs| && xs[d] == b.maxx;
    var e :| 0 <= e < |ys| && ys[e] == b.maxy;
  }

  /** A position with a third number (an altitude) makes the walk fail. */
  lemma BoxOfAltitude(ps: seq<Position>, p: Position)
    requires p in ps && |p| == 3
    ensures BoxOf(ps) == UnpackError
  {
  }

  /** `_bounds_from_geojson(gj)`: walk the positions of every feature,
      collecting the x and the y values, then take their minima and
      maxima. */
  method BoundsFromGeojson(features: seq<Feature>) returns (b: Bounds)
    ensures b == BoxOf(AllCoords(features))
  {
    var xs: seq<int> := [];
    var ys: seq<int> := [];
    ghost var seen: seq<Position> := [];
    for i := 0 to |features|
      invariant seen == AllCoords(features[..i])
      invariant forall k :: 0 <= k < |seen| ==> |seen[k]| == 2
      invariant xs == Xs(seen) && ys == Ys(seen)
    {
      var coords := IterCoords(features[i].geometry);
      for j := 0 to |coords|
        invariant seen == AllCoords(features[..i]) + coords[..j]
        invariant forall k :: 0 <= k < |seen| ==> |seen[k]| == 2
        invariant xs == Xs(seen) && ys == Ys(seen)
      {
        var c := coords[j];
        if |c| != 2 {
          UnpackFails(features, i, coords, j);
          return UnpackError;
        }
        XsYsSnoc(seen, c);
        xs := xs + [c[0]];
        ys := ys + [c[1]];
        assert coords[..j + 1] == coords[..j] + [c];
        seen := seen + [c];
      }
      assert coords[..|coords|] == coords;
      AllCoordsStep(features, i);
    }
    assert features[..|features|] == features;
    BoxOfPairs(seen);
    if xs == [] || ys == [] {
      return NoBounds;
    }
    return Box(Min(xs), Min(ys), Max(xs), Max(ys));
  }

  /** The box of well-formed positions. */
  lemma BoxOfPairs(ps: seq<Position>)
    requires forall k :: 0 <= k < |ps| ==> |ps[k]| == 2
    ensures BoxOf(ps) == if ps == [] then NoBounds else Box(Min(Xs(ps)), Min(Ys(ps)), Max(Xs(ps)), Max(Ys(ps)))
  {
  }

  /** Appending a pair appends its x and its y. */
  lemma XsYsSnoc(ps: seq<Position>, c: Position)
    requires forall k :: 0 <= k < |ps| ==> |ps[k]| == 2
    requires |c| == 2
    ensures forall k :: 0 <= k < |ps + [c]| ==> |(ps + [c])[k]| == 2
    ensures Xs(ps + [c]) == Xs(ps) + [c[0]] && Ys(ps + [c]) == Ys(ps) + [c[1]]
  {
    assert forall k :: 0 <= k < |ps| ==> (ps + [c])[k] == ps[k];
  }

  lemma AllCoordsStep(features: seq<Feature>, i: nat)
    requires i < |features|
    ensures AllCoords(features[..i + 1]) == AllCoords(features[..i]) + IterCoords(features[i].geometry)
  {
    assert features[..i + 1] == features[..i] + [features[i]];
    AllCoordsAppend(features[..i], [features[i]]);
    assert AllCoords([features[i]]) == IterCoords(features[i].geometry) + AllCoords([]);
  }

  lemma UnpackFails(features: seq<Feature>, i: nat, coords: seq<Position>, j: nat)
    requires i < |features| && coords == IterCoords(features[i].geometry)
    requires j < |coords| && |coords[j]| != 2
    ensures BoxOf(AllCoords(features)) == UnpackError
  {
    assert coords[j] in AllCoords(features);
  }

  // ---------------------------------------------------------------------
  // _filter_geojson, norm and cond
  // ---------------------------------------------------------------------

  /** The default of `norm`. */
  const NotInformed: string := "N\U{E3}o informado"

  /** The option of the area selector that selects every area. */
  const AllAreas: string := "Todas"

  /** A string property that counts as missing once stripped. */
  predicate IsBlankText(s: string) {
    Strip(s) in {"", "nan", "None"}
  }

  /** `norm(v)`: a missing value becomes "Não informado"; anything else is
      kept as it is, unstripped. A missing key and a JSON null both read as
      None. */
  function Norm(v: Option<Json>): (r: Json)
    ensures v.None? || v == Some(JNull) ==> r == JString(NotInformed)
    ensures v.Some? && v.value.JString? && IsBlankText(v.value.str) ==> r == JString(NotInformed)
    ensures v.Some? && v.value != JNull && !(v.value.JString? && IsBlankText(v.value.str)) ==> r == v.value
  {
    if v.None? || v.value.JNull? then JString(NotInformed)
    else if v.value.JString? && IsBlankText(v.value.str) then JString(NotInformed)
    else v.value
  }

  /** The default is not itself blank, so normalising twice changes nothing. */
  lemma NormIdempotent(v: Option<Json>)
    ensures Norm(Some(Norm(v))) == Norm(v)
  {
    NotInformedNotBlank();
  }

  lemma NotInformedNotBlank()
    ensures !IsBlankText(NotInformed)
  {
    var s := NotInformed;
    assert !IsSpace(s[0]) && !IsSpace(s[|s| - 1]);
    StripNoSpaceEnds(s);
  }

  function Lookup(props: map<string, Json>, key: string): Option<Json> {
    if key in props then Some(props[key]) else None
  }

  /** `cond(props)`: the area matches unless "Todas" is selected, and the
      neighbourhood is among the selected ones unless none is selected. */
  predicate Cond(props: map<string, Json>, area: string, selected: seq<string>) {
    var areaVal := Norm(Lookup(props, "AREA_y"));
    var bairroVal := Norm(Lookup(props, "BAIRRO_COM"));
    && (area == AllAreas || areaVal == JString(area))
    && (selected == [] || (bairroVal.JString? && bairroVal.str in selected))
  }

  /** Whether `cond` can be evaluated: `props.get` fails on a null
      `properties`. */
  predicate HasProperties(f: Feature) {
    f.properties.Some?
  }

  function Keep(area: string, selected: seq<string>): Feature -> bool {
    (f: Feature) => f.properties.Some? && Cond(f.properties.value, area, selected)
  }

  /** `_filter_geojson(gj, area, bairros_sel)["features"]`: the features that
      pass `cond`, in order; None where a feature with null properties makes
      `cond` raise. */
  function FilterGeojson(features: seq<Feature>, area: string, selected: seq<string>): (r: Option<seq<Feature>>)
    ensures r.None? <==> exists i :: 0 <= i < |features| && !HasProperties(features[i])
    ensures r.Some? ==> IsSubsequence(r.value, features)
    ensures r.Some? ==> forall f :: f in r.value <==> f in features && Cond(f.properties.value, area, selected)
    ensures r.Some? ==> forall f ::
      multiset(r.value)[f] == if f in features && Cond(f.properties.value, area, selected) then multiset(features)[f] else 0
  {
    if exists i :: 0 <= i < |features| && !HasProperties(features[i]) then None
    else
      FilterCounts(features, Keep(area, selected));
      Some(Filter(features, Keep(area, selected)))
  }

  /** Every kept feature has the selected area, unless "Todas" is selected,
      and a selected neighbourhood, unless none is selected. */
  lemma FilterKeptMatch(features: seq<Feature>, area: string, selected: seq<string>, f: Feature)
    requires FilterGeojson(features, area, selected).Some?
    requires f in FilterGeojson(features, area, selected).value
    ensures area != AllAreas ==> Norm(Lookup(f.properties.value, "AREA_y")) == JString(area)
    ensures selected != [] ==> Norm(Lookup(f.properties.value, "BAIRRO_COM")) in SelectedValues(selected)
  {
    var b := Norm(Lookup(f.properties.value, "BAIRRO_COM"));
    if selected != [] {
      var k :| 0 <= k < |selected| && selected[k] == b.str;
      assert SelectedValues(selected)[k] == b;
    }
  }

  /** "Todas" with nothing selected keeps every feature. */
  lemma FilterKeepsAll(features: seq<Feature>)
    requires forall i :: 0 <= i < |features| ==> HasProperties(features[i])
    ensures FilterGeojson(features, AllAreas, []) == Some(features)
  {
    FilterAll(features, Keep(AllAreas, []));
  }

  /** Filtering the filtered collection again changes nothing. */
  lemma FilterIdempotentGeojson(features: seq<Feature>, area: string, selected: seq<string>)
    requires FilterGeojson(features, area, selected).Some?
    ensures FilterGeojson(FilterGeojson(features, area, selected).value, area, selected)
      == FilterGeojson(features, area, selected)
  {
    var kept := FilterGeojson(features, area, selected).value;
    assert forall i :: 0 <= i < |kept| ==> HasProperties(kept[i]);
    FilterIdempotent(features, Keep(area, selected));
  }

  /** A feature whose area is missing, null, blank or "nan" passes the area
      test when "Não informado" is the selected area, so it is kept exactly
      when no neighbourhood is selected or its neighbourhood is selected. */
  lemma FilterMissingArea(features: seq<Feature>, selected: seq<string>, k: nat)
    requires FilterGeojson(features, NotInformed, selected).Some?
    requires k < |features|
    requires var props := features[k].properties.value;
      || "AREA_y" !in props
      || props["AREA_y"] == JNull
      || (props["AREA_y"].JString? && IsBlankText(props["AREA_y"].str))
    ensures features[k] in FilterGeojson(features, NotInformed, selected).value <==>
      selected == [] || Norm(Lookup(features[k].properties.value, "BAIRRO_COM")) in SelectedValues(selected)
  {
    assert HasProperties(features[k]);
    var b := Norm(Lookup(features[k].properties.value, "BAIRRO_COM"));
    if selected != [] {
      if b in SelectedValues(selected) {
        var i :| 0 <= i < |selected| && SelectedValues(selected)[i] == b;
        assert b.str == selected[i];
      }
      if b.JString? && b.str in selected {
        var i :| 0 <= i < |selected| && selected[i] == b.str;
        assert SelectedValues(selected)[i] == b;
      }
    }
  }

  /** The selected neighbourhoods as JSON strings. */
  function SelectedValues(selected: seq<string>): (js: seq<Json>)
    ensures |js| == |selected| && forall i :: 0 <= i < |selected| ==> js[i] == JString(selected[i])
  {
    seq(|selected|, i requires 0 <= i < |selected| => JString(selected[i]))
  }
}
