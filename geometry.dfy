/**
 * The geometry values that a layer's `geometry` column holds (the shapely
 * kinds), and the coordinate rounding of `reduzir_precisao`/`round_geom`.
 *
 * Coordinates are fixed-point: an integer `v` stands for `v * 10^-FixedPlaces`
 * degrees. Rounding to `decimals` places is then rounding to the nearest
 * multiple of `Step(decimals)`, ties to the even multiple, which is what
 * `np.round` does.
 */
module Geometry {
  import opened Common

  const FixedPlaces: nat := 9

  datatype Coord = Coord(x: int, y: int)

  /** The coordinate array of a line, a ring or a multi-point. */
  type Path = seq<Coord>

  /** A polygon's exterior ring and interior rings (holes). */
  datatype PolygonRings = PolygonRings(exterior: Path, interiors: seq<Path>)

  /** The closed set of shapely geometry kinds; `Point(None)` is the empty point. */
  datatype Geometry =
    | Point(at: Option<Coord>)
    | LineString(coords: Path)
    | LinearRing(ring: Path)
    | Polygon(rings: PolygonRings)
    | MultiPoint(points: Path)
    | MultiLineString(lines: seq<Path>)
    | MultiPolygon(polygons: seq<PolygonRings>)
    | GeometryCollection(members: seq<Geometry>)

  /** shapely's `geom_type`. */
  function GeomType(g: Geometry): string
  {
    match g
    case Point(_) => "Point"
    case LineString(_) => "LineString"
    case LinearRing(_) => "LinearRing"
    case Polygon(_) => "Polygon"
    case MultiPoint(_) => "MultiPoint"
    case MultiLineString(_) => "MultiLineString"
    case MultiPolygon(_) => "MultiPolygon"
    case GeometryCollection(_) => "GeometryCollection"
  }

  /** The test `geom_type in ['Point', 'MultiPoint']`. */
  predicate IsPointLike(g: Geometry)
  {
    GeomType(g) == "Point" || GeomType(g) == "MultiPoint"
  }

  /** The kinds that `round_geom` rebuilds; every other kind is returned as it is. */
  predicate IsRoundedKind(g: Geometry)
  {
    g.Point? || g.LineString? || g.Polygon? || g.MultiLineString? || g.MultiPolygon?
  }

  // ---------------------------------------------------------------- vertex counts

  function PathsVertexCount(ps: seq<Path>): nat
  {
    if ps == [] then 0 else |ps[0]| + PathsVertexCount(ps[1..])
  }

  function RingsVertexCount(p: PolygonRings): nat
  {
    |p.exterior| + PathsVertexCount(p.interiors)
  }

  function PolygonsVertexCount(ps: seq<PolygonRings>): nat
  {
    if ps == [] then 0 else RingsVertexCount(ps[0]) + PolygonsVertexCount(ps[1..])
  }

  /** The number of coordinates in `g`, over all parts and rings. */
  function VertexCount(g: Geometry): nat
    decreases g, 1
  {
    match g
    case Point(at) => if at.Some? then 1 else 0
    case LineString(cs) => |cs|
    case LinearRing(cs) => |cs|
    case Polygon(p) => RingsVertexCount(p)
    case MultiPoint(ps) => |ps|
    case MultiLineString(ls) => PathsVertexCount(ls)
    case MultiPolygon(ps) => PolygonsVertexCount(ps)
    case GeometryCollection(ms) => MembersVertexCount(ms)
  }

  function MembersVertexCount(ms: seq<Geometry>): nat
    decreases ms, 0
  {
    if ms == [] then 0 else VertexCount(ms[0]) + MembersVertexCount(ms[1..])
  }

  /** shapely's `is_empty`: the geometry has no points at all. */
  predicate IsEmpty(g: Geometry)
  {
    VertexCount(g) == 0
  }

  // ---------------------------------------------------------------- shape

  /** Same number of paths, and pairwise the same number of coordinates. */
  predicate SamePathsShape(ps: seq<Path>, qs: seq<Path>)
  {
    |ps| == |qs| && forall i :: 0 <= i < |ps| ==> |ps[i]| == |qs[i]|
  }

  predicate SameRingsShape(p: PolygonRings, q: PolygonRings)
  {
    |p.exterior| == |q.exterior| && SamePathsShape(p.interiors, q.interiors)
  }

  /**
   * `h` has the kind of `g`, the same number of parts, of rings in every part
   * and of coordinates in every ring or line; only coordinate values may differ.
   * A collection has its shape only when it is the same collection.
   */
  predicate SameShape(g: Geometry, h: Geometry)
  {
    match g
    case Point(at) => h.Point? && (at.Some? <==> h.at.Some?)
    case LineString(cs) => h.LineString? && |cs| == |h.coords|
    case LinearRing(cs) => h.LinearRing? && |cs| == |h.ring|
    case Polygon(p) => h.Polygon? && SameRingsShape(p, h.rings)
    case MultiPoint(ps) => h.MultiPoint? && |ps| == |h.points|
    case MultiLineString(ls) => h.MultiLineString? && SamePathsShape(ls, h.lines)
    case MultiPolygon(ps) =>
      h.MultiPolygon? && |ps| == |h.polygons| &&
      forall i :: 0 <= i < |ps| ==> SameRingsShape(ps[i], h.polygons[i])
    case GeometryCollection(_) => h == g
  }

  lemma {:induction false} SamePathsShapeCount(ps: seq<Path>, qs: seq<Path>)
    requires SamePathsShape(ps, qs)
    ensures PathsVertexCount(ps) == PathsVertexCount(qs)
  {
    if ps != [] {
      assert |ps[0]| == |qs[0]|;
      SamePathsShapeCount(ps[1..], qs[1..]);
    }
  }

  lemma {:induction false} SamePolygonsShapeCount(ps: seq<PolygonRings>, qs: seq<PolygonRings>)
    requires |ps| == |qs|
    requires forall i :: 0 <= i < |ps| ==> SameRingsShape(ps[i], qs[i])
    ensures PolygonsVertexCount(ps) == PolygonsVertexCount(qs)
  {
    if ps != [] {
      assert SameRingsShape(ps[0], qs[0]);
      SamePathsShapeCount(ps[0].interiors, qs[0].interiors);
      SamePolygonsShapeCount(ps[1..], qs[1..]);
    }
  }

  /** Geometries of the same shape have the same kind and the same number of vertices. */
  lemma SameShapeSameCount(g: Geometry, h: Geometry)
    requires SameShape(g, h)
    ensures GeomType(g) == GeomType(h)
    ensures VertexCount(g) == VertexCount(h)
  {
    match g
    case Polygon(p) => SamePathsShapeCount(p.interiors, h.rings.interiors);
    case MultiLineString(ls) => SamePathsShapeCount(ls, h.lines);
    case MultiPolygon(ps) => SamePolygonsShapeCount(ps, h.polygons);
    case _ =>
  }

  // ---------------------------------------------------------------- rounding

  function Pow10(n: nat): (r: nat)
    ensures r >= 1
  {
    if n == 0 then 1 else 10 * Pow10(n - 1)
  }

  /** The grid spacing, in fixed-point units, of a value rounded to `decimals` places. */
  function Step(decimals: nat): (step: nat)
    ensures step >= 1
  {
    if decimals >= FixedPlaces then 1 else Pow10(FixedPlaces - decimals)
  }

  lemma MulSign(a: int, k: int)
    requires a >= 1
    ensures k >= 1 ==> a * k >= a
    ensures k <= -1 ==> a * k <= -a
  {
  }

  lemma MulDivMod(q: int, step: int)
    requires step >= 1
    ensures (q * step) / step == q && (q * step) % step == 0
  {
    var m := q * step;
    var k := q - m / step;
    assert step * k == m % step;
    MulSign(step, k);
  }

  /**
   * `np.round` of one value: the nearest multiple of `step`, and on a tie the
   * even multiple.
   */
  function RoundHalfEven(v: int, step: nat): (r: int)
    requires step >= 1
    ensures r % step == 0
    ensures 2 * (r - v) <= step && 2 * (v - r) <= step
    ensures 2 * (r - v) == step || 2 * (v - r) == step ==> (r / step) % 2 == 0
    ensures v % step == 0 ==> r == v
  {
    var q := v / step;
    var rem := v % step;
    MulDivMod(q, step);
    MulDivMod(q + 1, step);
    assert (q + 1) * step == q * step + step;
    if 2 * rem < step then q * step
    else if 2 * rem > step then (q + 1) * step
    else if q % 2 == 0 then q * step
    else (q + 1) * step
  }

  function RoundCoord(c: Coord, decimals: nat): (r: Coord)
  {
    Coord(RoundHalfEven(c.x, Step(decimals)), RoundHalfEven(c.y, Step(decimals)))
  }

  /** Both components of `c` lie on the grid of `decimals` places. */
  predicate CoordOnGrid(c: Coord, decimals: nat)
  {
    c.x % Step(decimals) == 0 && c.y % Step(decimals) == 0
  }

  /** Each component of `r` is within half a grid step of the one of `c`. */
  predicate Near(r: Coord, c: Coord, decimals: nat)
  {
    2 * (r.x - c.x) <= Step(decimals) && 2 * (c.x - r.x) <= Step(decimals) &&
    2 * (r.y - c.y) <= Step(decimals) && 2 * (c.y - r.y) <= Step(decimals)
  }

  predicate PathOnGrid(p: Path, decimals: nat)
  {
    forall i :: 0 <= i < |p| ==> CoordOnGrid(p[i], decimals)
  }

  predicate RingsOnGrid(p: PolygonRings, decimals: nat)
  {
    PathOnGrid(p.exterior, decimals) &&
    forall i :: 0 <= i < |p.interiors| ==> PathOnGrid(p.interiors[i], decimals)
  }

  /** Every coordinate of `g` has at most `decimals` decimal places. */
  predicate OnGrid(g: Geometry, decimals: nat)
  {
    match g
    case Point(at) => at.Some? ==> CoordOnGrid(at.value, decimals)
    case LineString(cs) => PathOnGrid(cs, decimals)
    case LinearRing(cs) => PathOnGrid(cs, decimals)
    case Polygon(p) => RingsOnGrid(p, decimals)
    case MultiPoint(ps) => PathOnGrid(ps, decimals)
    case MultiLineString(ls) => forall i :: 0 <= i < |ls| ==> PathOnGrid(ls[i], decimals)
    case MultiPolygon(ps) => forall i :: 0 <= i < |ps| ==> RingsOnGrid(ps[i], decimals)
    case GeometryCollection(ms) => forall i :: 0 <= i < |ms| ==> OnGrid(ms[i], decimals)
  }

  /** `r` and `p` have the same length and are pairwise `Near`. */
  predicate PathNear(r: Path, p: Path, decimals: nat)
  {
    |r| == |p| && forall i :: 0 <= i < |p| ==> Near(r[i], p[i], decimals)
  }

  predicate RingsNear(r: PolygonRings, p: PolygonRings, decimals: nat)
  {
    PathNear(r.exterior, p.exterior, decimals) && |r.interiors| == |p.interiors| &&
    forall i :: 0 <= i < |p.interiors| ==> PathNear(r.interiors[i], p.interiors[i], decimals)
  }

  /**
   * `r` is `g` with every coordinate moved by at most half a grid step of
   * `decimals` places, and nothing else changed; a collection only when it is
   * the same collection.
   */
  predicate GeomNear(r: Geometry, g: Geometry, decimals: nat)
  {
    match g
    case Point(at) => r.Point? && (at.Some? <==> r.at.Some?) && (at.Some? ==> Near(r.at.value, at.value, decimals))
    case LineString(cs) => r.LineString? && PathNear(r.coords, cs, decimals)
    case LinearRing(cs) => r.LinearRing? && PathNear(r.ring, cs, decimals)
    case Polygon(p) => r.Polygon? && RingsNear(r.rings, p, decimals)
    case MultiPoint(ps) => r.MultiPoint? && PathNear(r.points, ps, decimals)
    case MultiLineString(ls) =>
      r.MultiLineString? && |r.lines| == |ls| &&
      forall i :: 0 <= i < |ls| ==> PathNear(r.lines[i], ls[i], decimals)
    case MultiPolygon(ps) =>
      r.MultiPolygon? && |r.polygons| == |ps| &&
      forall i :: 0 <= i < |ps| ==> RingsNear(r.polygons[i], ps[i], decimals)
    case GeometryCollection(_) => r == g
  }

  /** `np.round(np.array(coords), decimals)` of a coordinate array. */
  function RoundPath(p: Path, decimals: nat): (r: Path)
    ensures |r| == |p|
    ensures PathOnGrid(r, decimals)
    ensures forall i :: 0 <= i < |p| ==> Near(r[i], p[i], decimals)
    ensures PathOnGrid(p, decimals) ==> r == p
  {
    seq(|p|, i requires 0 <= i < |p| => RoundCoord(p[i], decimals))
  }

  function RoundPaths(ps: seq<Path>, decimals: nat): (r: seq<Path>)
    ensures SamePathsShape(ps, r)
    ensures forall i :: 0 <= i < |r| ==> r[i] == RoundPath(ps[i], decimals) && PathOnGrid(r[i], decimals)
  {
    seq(|ps|, i requires 0 <= i < |ps| => RoundPath(ps[i], decimals))
  }

  /** `Polygon(exterior, interiors)` rebuilt from the rounded rings of `p`. */
  function RoundRings(p: PolygonRings, decimals: nat): (r: PolygonRings)
    ensures SameRingsShape(p, r)
    ensures RingsOnGrid(r, decimals)
    ensures RingsNear(r, p, decimals)
  {
    PolygonRings(RoundPath(p.exterior, decimals), RoundPaths(p.interiors, decimals))
  }

  function RoundPolygons(ps: seq<PolygonRings>, decimals: nat): (r: seq<PolygonRings>)
    ensures |r| == |ps|
    ensures forall i :: 0 <= i < |r| ==> r[i] == RoundRings(ps[i], decimals) && RingsOnGrid(r[i], decimals)
  {
    seq(|ps|, i requires 0 <= i < |ps| => RoundRings(ps[i], decimals))
  }

  /**
   * What `round_geom` returns: an empty geometry and every kind it does not
   * list come back unchanged; the listed kinds are rebuilt from rounded
   * coordinates with the same parts, rings and vertex counts.
   */
  function Rounded(g: Geometry, decimals: nat): (r: Geometry)
    ensures SameShape(g, r)
    ensures GeomType(r) == GeomType(g) && VertexCount(r) == VertexCount(g)
    ensures IsEmpty(g) || !IsRoundedKind(g) ==> r == g
    ensures IsRoundedKind(g) ==> OnGrid(r, decimals)
    ensures GeomNear(r, g, decimals)
  {
    var r :=
      if IsEmpty(g) then g
      else match g
        case Polygon(p) => Polygon(RoundRings(p, decimals))
        case MultiPolygon(ps) => MultiPolygon(RoundPolygons(ps, decimals))
        case LineString(cs) => LineString(RoundPath(cs, decimals))
        case MultiLineString(ls) => MultiLineString(RoundPaths(ls, decimals))
        case Point(at) => Point(Some(RoundCoord(at.value, decimals)))
        case _ => g;
    SameShapeSameCount(g, r);
    EmptyOnGrid(g, decimals);
    r
  }

  lemma {:induction false} NoVertexInPaths(ps: seq<Path>)
    requires PathsVertexCount(ps) == 0
    ensures forall i :: 0 <= i < |ps| ==> ps[i] == []
  {
    if ps != [] {
      NoVertexInPaths(ps[1..]);
      assert forall i :: 1 <= i < |ps| ==> ps[i] == ps[1..][i - 1];
    }
  }

  lemma {:induction false} NoVertexInPolygons(ps: seq<PolygonRings>)
    requires PolygonsVertexCount(ps) == 0
    ensures forall i :: 0 <= i < |ps| ==> RingsVertexCount(ps[i]) == 0
  {
    if ps != [] {
      NoVertexInPolygons(ps[1..]);
      assert forall i :: 1 <= i < |ps| ==> ps[i] == ps[1..][i - 1];
    }
  }

  /** A geometry without vertices trivially lies on every grid. */
  lemma {:induction false} EmptyOnGrid(g: Geometry, decimals: nat)
    ensures IsEmpty(g) ==> OnGrid(g, decimals)
  {
    if IsEmpty(g) {
    match g
    case Polygon(p) =>
      NoVertexInPaths(p.interiors);
    case MultiLineString(ls) =>
      NoVertexInPaths(ls);
    case MultiPolygon(ps) =>
      NoVertexInPolygons(ps);
      forall i | 0 <= i < |ps| ensures RingsOnGrid(ps[i], decimals) {
        NoVertexInPaths(ps[i].interiors);
      }
    case GeometryCollection(ms) =>
      NoVertexInMembers(ms);
      forall i | 0 <= i < |ms| ensures OnGrid(ms[i], decimals) {
        EmptyOnGrid(ms[i], decimals);
      }
    case _ =>
    }
  }

  lemma {:induction false} NoVertexInMembers(ms: seq<Geometry>)
    requires MembersVertexCount(ms) == 0
    ensures forall i :: 0 <= i < |ms| ==> IsEmpty(ms[i])
  {
    if ms != [] {
      NoVertexInMembers(ms[1..]);
      assert forall i :: 1 <= i < |ms| ==> ms[i] == ms[1..][i - 1];
    }
  }

  /** Rounding a second time changes nothing. */
  lemma RoundedIdempotent(g: Geometry, decimals: nat)
    ensures Rounded(Rounded(g, decimals), decimals) == Rounded(g, decimals)
  {
    var r := Rounded(g, decimals);
    if !IsEmpty(g) && IsRoundedKind(g) {
      match r
      case Polygon(p) =>
        assert RoundRings(p, decimals) == p;
      case MultiPolygon(ps) =>
        assert RoundPolygons(ps, decimals) == ps by {
          forall i | 0 <= i < |ps| ensures RoundRings(ps[i], decimals) == ps[i] {
            assert RoundPaths(ps[i].interiors, decimals) == ps[i].interiors;
          }
        }
      case MultiLineString(ls) =>
        assert RoundPaths(ls, decimals) == ls;
      case Point(at) =>
        assert RoundCoord(at.value, decimals) == at.value;
      case LineString(cs) =>
    }
  }

  // ---------------------------------------------------------------- round_geom

  /** The exterior and the interiors of one polygon, interiors appended one by one. */
  method RoundPolygonRings(p: PolygonRings, decimals: nat) returns (r: PolygonRings)
    ensures r == RoundRings(p, decimals)
  {
    var exterior := RoundPath(p.exterior, decimals);
    var interiors: seq<Path> := [];
    for i := 0 to |p.interiors|
      invariant |interiors| == i
      invariant forall k :: 0 <= k < i ==> interiors[k] == RoundPath(p.interiors[k], decimals)
    {
      interiors := interiors + [RoundPath(p.interiors[i], decimals)];
    }
    r := PolygonRings(exterior, interiors);
  }

  /** `round_geom`: the kind is dispatched on, parts and rings are rebuilt in loops. */
  method RoundGeom(g: Geometry, decimals: nat) returns (r: Geometry)
    ensures r == Rounded(g, decimals)
  {
    if IsEmpty(g) {
      return g;
    }
    match g {
      case Polygon(p) =>
        var rings := RoundPolygonRings(p, decimals);
        r := Polygon(rings);
      case MultiPolygon(ps) =>
        var polygons: seq<PolygonRings> := [];
        for i := 0 to |ps|
          invariant |polygons| == i
          invariant forall k :: 0 <= k < i ==> polygons[k] == RoundRings(ps[k], decimals)
        {
          var rings := RoundPolygonRings(ps[i], decimals);
          polygons := polygons + [rings];
        }
        r := MultiPolygon(polygons);
      case LineString(cs) =>
        r := LineString(RoundPath(cs, decimals));
      case MultiLineString(ls) =>
        var lines: seq<Path> := [];
        for i := 0 to |ls|
          invariant |lines| == i
          invariant forall k :: 0 <= k < i ==> lines[k] == RoundPath(ls[k], decimals)
        {
          lines := lines + [RoundPath(ls[i], decimals)];
        }
        r := MultiLineString(lines);
      case Point(at) =>
        r := Point(Some(RoundCoord(at.value, decimals)));
      case _ =>
        r := g;
    }
  }
}
