/**
 * What the feature class delivers to the writer: the geometry of a row,
 * its attribute values, and the schema information the writer asks for.
 * The data-store API that produces these values is not modelled; they are
 * the inputs of the model.
 */
module Records {
  import opened Wrappers

  /** A vertex, already reprojected into WGS 84 by the cursor. */
  datatype Point = Point(x: real, y: real)

  /** A rounded coordinate pair; it is written as a two-element JSON array. */
  type Position = (real, real)

  /**
   * Rounding of one coordinate to six decimal places. Floating point is not
   * modelled, so the rounding is a parameter of every operation that uses it.
   */
  type Rounding = real -> real

  /** `(round(pt.X, 6), round(pt.Y, 6))` */
  function RoundPoint(round: Rounding, p: Point): Position
  {
    (round(p.x), round(p.y))
  }

  /** The list comprehension that rounds every vertex of one part. */
  function RoundPoints(round: Rounding, ps: seq<Point>): seq<Position>
  {
    seq(|ps|, i requires 0 <= i < |ps| => RoundPoint(round, ps[i]))
  }

  /** Rounds every vertex of every part, keeping the parts apart. */
  function RoundParts(round: Rounding, parts: seq<seq<Point>>): seq<seq<Position>>
  {
    seq(|parts|, k requires 0 <= k < |parts| => RoundPoints(round, parts[k]))
  }

  /**
   * The geometry of a row. A polyline has a list of parts, each a list of
   * vertices. A polygon has a list of parts whose vertex lists are
   * interleaved with `None` markers that close one ring and begin the next.
   * `OtherGeom` stands for any other kind of geometry object (a multipoint,
   * a multipatch, ...), which the writer does not support.
   */
  datatype Geom =
    | NullGeom
    | PointGeom(point: Point)
    | PolylineGeom(lines: seq<seq<Point>>)
    | PolygonGeom(parts: seq<seq<Option<Point>>>)
    | OtherGeom(kind: string)

  /** A scalar attribute value as the cursor returns it. */
  datatype Value =
    | NullValue
    | IntValue(i: int)
    | RealValue(r: real)
    | TextValue(s: string)

  /** A cursor row `(SHAPE@, v1, v2, ...)`: the geometry, then `row[1:]`. */
  datatype Row = Row(shape: Geom, values: seq<Value>)

  /**
   * One entry of the field list of a feature class. An empty `aliasName`
   * stands for a missing alias (Python's `aliasName or name` treats both
   * `None` and `''` as missing).
   */
  datatype FieldInfo = FieldInfo(name: string, aliasName: string)
}
