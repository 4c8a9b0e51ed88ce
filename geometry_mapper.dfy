/**
 * `geometry_to_struct`: one row's geometry as a GeoJSON geometry object
 * (section 3.1 of RFC 7946), or `None` for a missing geometry.
 */
module GeometryMapper {
  import opened Wrappers
  import opened Json
  import opened Records
  import opened RingSplit

  /** The five geometry objects the writer produces, with their coordinates. */
  datatype GeoJsonGeometry =
    | GeoPoint(position: Position)
    | LineString(path: seq<Position>)
    | MultiLineString(paths: seq<seq<Position>>)
    | Polygon(rings: seq<seq<Position>>)
    | MultiPolygon(polygons: seq<seq<seq<Position>>>)
  {
    /** The value of the object's `type` member. */
    function TypeName(): string
    {
      match this
      case GeoPoint(_) => "Point"
      case LineString(_) => "LineString"
      case MultiLineString(_) => "MultiLineString"
      case Polygon(_) => "Polygon"
      case MultiPolygon(_) => "MultiPolygon"
    }
  }

  /** `ValueError(in_geometry)`: the error carries the offending geometry. */
  datatype MapError = UnsupportedGeometryType(value: Geom)

  /** The line strings a line geometry describes, whichever form it takes. */
  function PathsOf(g: GeoJsonGeometry): seq<seq<Position>>
    requires g.LineString? || g.MultiLineString?
  {
    if g.LineString? then [g.path] else g.paths
  }

  /** The polygons (lists of rings) a polygon geometry describes. */
  function PolygonsOf(g: GeoJsonGeometry): seq<seq<seq<Position>>>
    requires g.Polygon? || g.MultiPolygon?
  {
    if g.Polygon? then [g.rings] else g.polygons
  }

  /** The rings of every part of a polygon, one list of rings per part. */
  function SplitParts(round: Rounding, parts: seq<seq<Option<Point>>>): seq<seq<seq<Position>>>
  {
    seq(|parts|, k requires 0 <= k < |parts| => SplitAtNones(round, parts[k]))
  }

  function GeometryToStruct(round: Rounding, g: Geom): (r: Result<Option<GeoJsonGeometry>, MapError>)
    // A missing geometry is JSON null; an unsupported one is an error carrying it.
    ensures g.NullGeom? <==> r == Success(None)
    ensures g.OtherGeom? <==> r.Failure?
    ensures r.Failure? ==> r.error == UnsupportedGeometryType(g)
    // A point is a Point at the rounded position.
    ensures g.PointGeom? ==> r == Success(Some(GeoPoint(RoundPoint(round, g.point))))
    // A polyline is a LineString exactly when it has one part, and either
    // form lists the rounded parts in part order.
    ensures g.PolylineGeom? ==>
              && r.Success? && r.value.Some?
              && (r.value.value.LineString? || r.value.value.MultiLineString?)
              && (r.value.value.LineString? <==> |g.lines| == 1)
              && PathsOf(r.value.value) == RoundParts(round, g.lines)
    // A polygon is a Polygon exactly when it has one part, and either form
    // lists the split rings of every part in part order.
    ensures g.PolygonGeom? ==>
              && r.Success? && r.value.Some?
              && (r.value.value.Polygon? || r.value.value.MultiPolygon?)
              && (r.value.value.Polygon? <==> |g.parts| == 1)
              && PolygonsOf(r.value.value) == SplitParts(round, g.parts)
  {
    match g
    case NullGeom => Success(None)
    case PointGeom(pt) => Success(Some(GeoPoint(RoundPoint(round, pt))))
    case PolylineGeom(lines) =>
      var parts := RoundParts(round, lines);
      if |parts| == 1 then Success(Some(LineString(parts[0])))
      else Success(Some(MultiLineString(parts)))
    case PolygonGeom(polyParts) =>
      var parts := SplitParts(round, polyParts);
      if |parts| == 1 then Success(Some(Polygon(parts[0])))
      else Success(Some(MultiPolygon(parts)))
    case OtherGeom(_) => Failure(UnsupportedGeometryType(g))
  }

  /**
   * Single or multi: a mapped polyline or polygon is named with the `Multi`
   * prefix exactly when it does not have one part (none counts as not one).
   */
  lemma SingularOrMulti(round: Rounding, g: Geom)
    requires g.PolylineGeom? || g.PolygonGeom?
    ensures var r := GeometryToStruct(round, g);
            var count := if g.PolylineGeom? then |g.lines| else |g.parts|;
            var singular := if g.PolylineGeom? then "LineString" else "Polygon";
            && r.Success? && r.value.Some?
            && (r.value.value.TypeName() == singular <==> count == 1)
            && (r.value.value.TypeName() == "Multi" + singular <==> count != 1)
  {
    var r := GeometryToStruct(round, g);
    if g.PolylineGeom? {
      assert "MultiLineString" == "Multi" + "LineString";
      assert r.value.value.LineString? || r.value.value.MultiLineString?;
    } else {
      assert "MultiPolygon" == "Multi" + "Polygon";
      assert r.value.value.Polygon? || r.value.value.MultiPolygon?;
    }
  }

  function PositionJson(p: Position): Json
  {
    JArray([JNumber(p.0), JNumber(p.1)])
  }

  function PathJson(path: seq<Position>): Json
  {
    JArray(seq(|path|, i requires 0 <= i < |path| => PositionJson(path[i])))
  }

  function RingsJson(rings: seq<seq<Position>>): Json
  {
    JArray(seq(|rings|, i requires 0 <= i < |rings| => PathJson(rings[i])))
  }

  /** The `coordinates` member: one level of nesting per level of the geometry. */
  function CoordinatesJson(g: GeoJsonGeometry): Json
  {
    match g
    case GeoPoint(p) => PositionJson(p)
    case LineString(path) => PathJson(path)
    case MultiLineString(paths) => RingsJson(paths)
    case Polygon(rings) => RingsJson(rings)
    case MultiPolygon(polygons) =>
      JArray(seq(|polygons|, i requires 0 <= i < |polygons| => RingsJson(polygons[i])))
  }

  /** The dictionary `{'type': ..., 'coordinates': ...}` handed to the serializer. */
  function GeometryJson(g: GeoJsonGeometry): (j: Json)
    ensures j.JObject? && MemberNames(j.members) == ["type", "coordinates"]
    ensures j.members[0].1 == JString(g.TypeName())
  {
    JObject([("type", JString(g.TypeName())), ("coordinates", CoordinatesJson(g))])
  }

  /*
   * Reading the geometry dictionary back. The reader accepts exactly the
   * shapes the writer produces at each nesting level, so writing a
   * geometry and reading it back gives that geometry.
   */

  /** A position: an array of exactly two numbers. */
  function ReadPosition(j: Json): Option<Position>
  {
    if j.JArray? && |j.items| == 2 && j.items[0].JNumber? && j.items[1].JNumber?
    then Some((j.items[0].n, j.items[1].n))
    else None
  }

  /** Every item read with `read`, in order, or nothing when one of them cannot be. */
  function ReadAll<T>(items: seq<Json>, read: Json -> Option<T>): Option<seq<T>>
  {
    if items == [] then Some([])
    else
      var head := read(items[0]);
      var tail := ReadAll(items[1..], read);
      if head.Some? && tail.Some? then Some([head.value] + tail.value) else None
  }

  function ReadPath(j: Json): Option<seq<Position>>
  {
    if j.JArray? then ReadAll(j.items, ReadPosition) else None
  }

  function ReadRings(j: Json): Option<seq<seq<Position>>>
  {
    if j.JArray? then ReadAll(j.items, ReadPath) else None
  }

  function ReadPolygons(j: Json): Option<seq<seq<seq<Position>>>>
  {
    if j.JArray? then ReadAll(j.items, ReadRings) else None
  }

  /** The `coordinates` member read at the nesting its `type` calls for. */
  function ReadCoordinates(typeName: string, c: Json): Option<GeoJsonGeometry>
  {
    if typeName == "Point" then
      (var p := ReadPosition(c); if p.Some? then Some(GeoPoint(p.value)) else None)
    else if typeName == "LineString" then
      (var p := ReadPath(c); if p.Some? then Some(LineString(p.value)) else None)
    else if typeName == "MultiLineString" then
      (var p := ReadRings(c); if p.Some? then Some(MultiLineString(p.value)) else None)
    else if typeName == "Polygon" then
      (var p := ReadRings(c); if p.Some? then Some(Polygon(p.value)) else None)
    else if typeName == "MultiPolygon" then
      (var p := ReadPolygons(c); if p.Some? then Some(MultiPolygon(p.value)) else None)
    else None
  }

  /** A geometry dictionary: a `type` string followed by `coordinates`. */
  function ReadGeometry(j: Json): Option<GeoJsonGeometry>
  {
    if j.JObject? && |j.members| == 2 && j.members[0].0 == "type" && j.members[0].1.JString?
       && j.members[1].0 == "coordinates"
    then ReadCoordinates(j.members[0].1.s, j.members[1].1)
    else None
  }

  /** Items written one by one with `write` are read back by a `read` that undoes it. */
  lemma {:induction false} ReadAllWritten<T>(xs: seq<T>, items: seq<Json>, write: T -> Json, read: Json -> Option<T>)
    requires |items| == |xs| && forall i :: 0 <= i < |xs| ==> items[i] == write(xs[i])
    requires forall i :: 0 <= i < |xs| ==> read(write(xs[i])) == Some(xs[i])
    ensures ReadAll(items, read) == Some(xs)
    decreases |xs|
  {
    if xs != [] {
      ReadAllWritten(xs[1..], items[1..], write, read);
      assert xs == [xs[0]] + xs[1..];
    }
  }

  lemma PathRoundTrip(path: seq<Position>)
    ensures ReadPath(PathJson(path)) == Some(path)
  {
    ReadAllWritten(path, PathJson(path).items, PositionJson, ReadPosition);
  }

  lemma RingsRoundTrip(rings: seq<seq<Position>>)
    ensures ReadRings(RingsJson(rings)) == Some(rings)
  {
    forall i | 0 <= i < |rings| ensures ReadPath(PathJson(rings[i])) == Some(rings[i]) {
      PathRoundTrip(rings[i]);
    }
    ReadAllWritten(rings, RingsJson(rings).items, PathJson, ReadPath);
  }

  lemma PolygonsRoundTrip(polygons: seq<seq<seq<Position>>>)
    ensures ReadPolygons(CoordinatesJson(MultiPolygon(polygons))) == Some(polygons)
  {
    forall i | 0 <= i < |polygons| ensures ReadRings(RingsJson(polygons[i])) == Some(polygons[i]) {
      RingsRoundTrip(polygons[i]);
    }
    ReadAllWritten(polygons, CoordinatesJson(MultiPolygon(polygons)).items, RingsJson, ReadRings);
  }

  /**
   * The geometry dictionary determines the geometry: its `type` names the
   * kind, and its `coordinates` hold every position, at the nesting that
   * kind calls for, in order.
   */
  lemma GeometryJsonRoundTrip(g: GeoJsonGeometry)
    ensures ReadCoordinates(g.TypeName(), CoordinatesJson(g)) == Some(g)
    ensures ReadGeometry(GeometryJson(g)) == Some(g)
  {
    match g
    case GeoPoint(_) =>
    case LineString(path) => PathRoundTrip(path);
    case MultiLineString(paths) => RingsRoundTrip(paths);
    case Polygon(rings) => RingsRoundTrip(rings);
    case MultiPolygon(polygons) => PolygonsRoundTrip(polygons);
  }
}
