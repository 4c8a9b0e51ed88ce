/**
 * `geojson_lines_for_feature_class` and `get_geojson_string`: the
 * FeatureCollection of section 3.3 of RFC 7946 written as a stream of text
 * chunks, the opening of the object, one line per feature, and the closing
 * brackets. A line ends with a comma while the running count of rows is
 * below the record count taken before the cursor is opened.
 */
module FeatureStream {
  import opened Wrappers
  import opened Json
  import opened Records
  import opened GeometryMapper
  import opened Properties

  const Opening: string := "{\"type\": \"FeatureCollection\", \"features\": ["
  const Closing: string := "]}"
  const Indent: string := "  "

  /** `json.dumps`, which is not modelled: any function from values to text. */
  type Serializer = Json -> string

  /** What the data-store API reports about one feature class. */
  datatype FeatureClass = FeatureClass(
    shapeField: string,        // the shape field name from Describe
    fields: seq<FieldInfo>,    // ListFields, in order
    recordCount: int,          // GetCount, taken before the cursor is read
    cursorFields: seq<string>, // the cursor's field names, 'SHAPE@' first
    rows: seq<Row>)            // the rows the cursor yields, in order

  /** Everything a feature line depends on besides the row itself. */
  datatype Writer = Writer(
    round: Rounding,
    serialize: Serializer,
    columns: seq<string>,
    shapeField: string,
    recordCount: int)

  function WriterFor(round: Rounding, serialize: Serializer, fc: FeatureClass): Writer
  {
    Writer(round, serialize, ColumnNames(fc.fields, fc.cursorFields), fc.shapeField, fc.recordCount)
  }

  function ValueJson(v: Value): Json
  {
    match v
    case NullValue => JNull
    case IntValue(i) => JInt(i)
    case RealValue(r) => JNumber(r)
    case TextValue(s) => JString(s)
  }

  function PropertiesJson(d: Dict): Json
  {
    JObject(seq(|d|, i requires 0 <= i < |d| => (d[i].0, ValueJson(d[i].1))))
  }

  /**
   * The `OrderedDict` of one feature: its keys are `type`, `properties` and
   * `geometry` in that order, the type is `Feature`, the properties keep
   * the dictionary's key order and hold its values, and a missing geometry is written as null
   * rather than left out.
   */
  function FeatureJson(properties: Dict, geometry: Option<GeoJsonGeometry>): (j: Json)
    ensures j.JObject? && MemberNames(j.members) == ["type", "properties", "geometry"]
    ensures j.members[0].1 == JString("Feature")
    ensures j.members[1].1.JObject? && MemberNames(j.members[1].1.members) == KeysOf(properties)
    ensures j.JObject? && |j.members| == 3 && j.members[1].1.JObject? &&
            |j.members[1].1.members| == |properties| &&
            forall i :: 0 <= i < |properties| ==>
              j.members[1].1.members[i] == (properties[i].0, ValueJson(properties[i].1))
    ensures j.members[2].1 == JNull <==> geometry.None?
    ensures geometry.Some? ==> j.members[2].1 == GeometryJson(geometry.value)
  {
    var geometryJson := if geometry.None? then JNull else GeometryJson(geometry.value);
    JObject([("type", JString("Feature")), ("properties", PropertiesJson(properties)), ("geometry", geometryJson)])
  }

  predicate Supported(g: Geom)
  {
    !g.OtherGeom?
  }

  predicate AllSupported(rows: seq<Row>)
  {
    forall i :: 0 <= i < |rows| ==> Supported(rows[i].shape)
  }

  /** The index of the first row whose geometry cannot be mapped, or the row count. */
  function FirstUnsupported(rows: seq<Row>): (k: int)
    ensures 0 <= k <= |rows| && forall i :: 0 <= i < k ==> Supported(rows[i].shape)
    ensures k < |rows| ==> !Supported(rows[k].shape)
  {
    if rows == [] then 0
    else if !Supported(rows[0].shape) then 0
    else
      1 + FirstUnsupported(rows[1..])
  }

  /** The feature of one row whose geometry can be mapped. */
  function RowFeature(w: Writer, row: Row): Json
    requires Supported(row.shape)
  {
    FeatureJson(PropertyDict(w.columns, row.values, w.shapeField), GeometryToStruct(w.round, row.shape).value)
  }

  /** The chunk for the feature counted as number `counter`, from 1. */
  function FeatureLine(w: Writer, feature: Json, counter: int): string
  {
    Indent + w.serialize(feature) + (if counter < w.recordCount then "," else "")
  }

  function FeatureLines(w: Writer, rows: seq<Row>): seq<string>
    requires AllSupported(rows)
  {
    seq(|rows|, i requires 0 <= i < |rows| => FeatureLine(w, RowFeature(w, rows[i]), i + 1))
  }

  /** Every chunk the generator yields when no geometry fails. */
  function DocumentChunks(w: Writer, rows: seq<Row>): seq<string>
    requires AllSupported(rows)
  {
    [Opening] + FeatureLines(w, rows) + [Closing]
  }

  /**
   * The generator: the opening chunk, then one line per row in cursor
   * order, then the closing chunk. When a row's geometry cannot be mapped
   * the generator raises after yielding the opening and the lines of the
   * rows before it; those chunks are returned with the error.
   */
  method GeojsonLinesForFeatureClass(round: Rounding, serialize: Serializer, fc: FeatureClass)
    returns (chunks: seq<string>, failure: Option<MapError>)
    ensures failure.None? <==> AllSupported(fc.rows)
    ensures failure.None? ==> chunks == DocumentChunks(WriterFor(round, serialize, fc), fc.rows)
    ensures failure.Some? ==>
              && FirstUnsupported(fc.rows) < |fc.rows|
              && failure.value == UnsupportedGeometryType(fc.rows[FirstUnsupported(fc.rows)].shape)
              && |chunks| == FirstUnsupported(fc.rows) + 1
              && chunks[0] == Opening
              && forall i :: 0 <= i < FirstUnsupported(fc.rows) ==>
                   chunks[i + 1] == FeatureLine(WriterFor(round, serialize, fc), RowFeature(WriterFor(round, serialize, fc), fc.rows[i]), i + 1)
  {
    var shapeField := fc.shapeField;
    var recordCount := fc.recordCount;
    var colNames := ColumnNames(fc.fields, fc.cursorFields);
    ghost var w := WriterFor(round, serialize, fc);
    assert w.serialize == serialize && w.recordCount == recordCount;
    assert w.columns == colNames && w.shapeField == shapeField && w.round == round;
    var counter := 0;
    chunks := [Opening];
    for i := 0 to |fc.rows|
      invariant counter == i
      invariant AllSupported(fc.rows[..i])
      invariant chunks == [Opening] + FeatureLines(w, fc.rows[..i])
    {
      counter := counter + 1;
      var row := fc.rows[i];
      var geometry := GeometryToStruct(round, row.shape);
      if geometry.Failure? {
        failure := Some(geometry.error);
        EmittedBeforeFailure(w, fc.rows, i, chunks);
        return;
      }
      var properties := FromPairs(Zip(colNames, row.values));
      if shapeField in KeysOf(properties) {
        properties := Delete(properties, shapeField);
      }
      var feature := FeatureJson(properties, geometry.value);
      assert feature == RowFeature(w, row);
      ghost var before := chunks;
      if counter < recordCount {
        chunks := chunks + [Indent + serialize(feature) + ","];
        assert chunks == before + [FeatureLine(w, feature, i + 1)];
      } else {
        chunks := chunks + [Indent + serialize(feature)];
        assert Indent + serialize(feature) + "" == Indent + serialize(feature);
        assert chunks == before + [FeatureLine(w, feature, i + 1)];
      }
      assert Supported(row.shape);
      SupportedSnoc(fc.rows, i);
      FeatureLinesSnoc(w, fc.rows, i);
      AppendAssoc([Opening], FeatureLines(w, fc.rows[..i]), [FeatureLine(w, feature, i + 1)]);
    }
    assert fc.rows[..|fc.rows|] == fc.rows;
    failure := None;
    chunks := chunks + [Closing];
  }

  /** What has been yielded when row `i` is the first whose geometry raises. */
  lemma EmittedBeforeFailure(w: Writer, rows: seq<Row>, i: int, chunks: seq<string>)
    requires 0 <= i < |rows| && AllSupported(rows[..i]) && !Supported(rows[i].shape)
    requires chunks == [Opening] + FeatureLines(w, rows[..i])
    ensures FirstUnsupported(rows) == i
    ensures |chunks| == i + 1 && chunks[0] == Opening
    ensures forall j :: 0 <= j < i ==> chunks[j + 1] == FeatureLine(w, RowFeature(w, rows[j]), j + 1)
  {
    FirstUnsupportedAt(rows, i);
    PrefixLines(w, rows, i);
    ConsIndex(Opening, FeatureLines(w, rows[..i]));
  }

  lemma ConsIndex(x: string, s: seq<string>)
    ensures |[x] + s| == |s| + 1 && ([x] + s)[0] == x
    ensures forall j :: 0 <= j < |s| ==> ([x] + s)[j + 1] == s[j]
  {
  }

  lemma AppendAssoc(a: seq<string>, b: seq<string>, c: seq<string>)
    ensures (a + b) + c == a + (b + c)
  {
  }

  lemma SupportedSnoc(rows: seq<Row>, i: int)
    requires 0 <= i < |rows| && AllSupported(rows[..i]) && Supported(rows[i].shape)
    ensures AllSupported(rows[..i + 1])
  {
    assert forall j :: 0 <= j < i ==> rows[..i + 1][j] == rows[..i][j];
  }

  lemma FeatureLinesSnoc(w: Writer, rows: seq<Row>, i: int)
    requires 0 <= i < |rows| && AllSupported(rows[..i + 1])
    ensures AllSupported(rows[..i])
    ensures FeatureLines(w, rows[..i + 1]) == FeatureLines(w, rows[..i]) + [FeatureLine(w, RowFeature(w, rows[i]), i + 1)]
  {
    assert forall j :: 0 <= j < i ==> rows[..i][j] == rows[..i + 1][j];
  }

  lemma PrefixLines(w: Writer, rows: seq<Row>, n: int)
    requires 0 <= n <= |rows| && AllSupported(rows[..n])
    ensures forall j :: 0 <= j < n ==> Supported(rows[j].shape)
    ensures |FeatureLines(w, rows[..n])| == n
    ensures forall j :: 0 <= j < n ==> FeatureLines(w, rows[..n])[j] == FeatureLine(w, RowFeature(w, rows[j]), j + 1)
  {
    assert forall j :: 0 <= j < n ==> rows[..n][j] == rows[j];
  }

  lemma FirstUnsupportedAt(rows: seq<Row>, i: int)
    requires 0 <= i < |rows| && AllSupported(rows[..i]) && !Supported(rows[i].shape)
    ensures FirstUnsupported(rows) == i
  {
  }

  /** `''.join(chunks)` */
  function Concat(chunks: seq<string>): string
  {
    if chunks == [] then "" else chunks[0] + Concat(chunks[1..])
  }

  /**
   * `get_geojson_string`: the chunks joined, or the error the generator
   * raised.
   */
  method GetGeojsonString(round: Rounding, serialize: Serializer, fc: FeatureClass)
    returns (r: Result<string, MapError>)
    ensures r.Success? <==> AllSupported(fc.rows)
    ensures r.Success? ==> r.value == Concat(DocumentChunks(WriterFor(round, serialize, fc), fc.rows))
    ensures r.Failure? ==>
              FirstUnsupported(fc.rows) < |fc.rows| &&
              r.error == UnsupportedGeometryType(fc.rows[FirstUnsupported(fc.rows)].shape)
  {
    var chunks, failure := GeojsonLinesForFeatureClass(round, serialize, fc);
    if failure.Some? {
      r := Failure(failure.value);
    } else {
      r := Success(Concat(chunks));
    }
  }

  /** The elements of a JSON array as written: the items with `sep` between neighbours. */
  function JoinWith(sep: string, items: seq<string>): string
  {
    if items == [] then ""
    else if |items| == 1 then items[0]
    else items[0] + sep + JoinWith(sep, items[1..])
  }

  /** Each feature's text with its indentation, without any comma. */
  function FeatureTexts(w: Writer, rows: seq<Row>): seq<string>
    requires AllSupported(rows)
  {
    seq(|rows|, i requires 0 <= i < |rows| => Indent + w.serialize(RowFeature(w, rows[i])))
  }

  /**
   * The layout of the stream: the opening chunk, one line per row in row
   * order, the closing chunk; line `i` (from 1) is its feature's text with
   * a trailing comma exactly when `i` is below the record count.
   */
  lemma ChunkLayout(w: Writer, rows: seq<Row>)
    requires AllSupported(rows)
    ensures var chunks := DocumentChunks(w, rows);
            && |chunks| == |rows| + 2
            && chunks[0] == Opening
            && chunks[|rows| + 1] == Closing
            && forall i :: 1 <= i <= |rows| ==>
                 && (chunks[i] == FeatureTexts(w, rows)[i - 1] + "," <==> i < w.recordCount)
                 && (chunks[i] == FeatureTexts(w, rows)[i - 1] <==> i >= w.recordCount)
  {
    var chunks := DocumentChunks(w, rows);
    forall i | 1 <= i <= |rows|
      ensures chunks[i] == FeatureTexts(w, rows)[i - 1] + "," <==> i < w.recordCount
      ensures chunks[i] == FeatureTexts(w, rows)[i - 1] <==> i >= w.recordCount
    {
      LineAt(w, rows, i);
      CommaOrNot(FeatureTexts(w, rows)[i - 1], i < w.recordCount);
    }
  }

  /** Chunk `i` (from 1) is the feature text of row `i - 1` with its comma, if any. */
  lemma LineAt(w: Writer, rows: seq<Row>, i: int)
    requires AllSupported(rows) && 1 <= i <= |rows|
    ensures DocumentChunks(w, rows)[i]
      == FeatureTexts(w, rows)[i - 1] + (if i < w.recordCount then "," else "")
  {
    var text := Indent + w.serialize(RowFeature(w, rows[i - 1]));
    var comma := if i < w.recordCount then "," else "";
    assert FeatureTexts(w, rows)[i - 1] == text;
    assert FeatureLines(w, rows)[i - 1] == text + comma;
    assert DocumentChunks(w, rows)[i] == FeatureLines(w, rows)[i - 1];
  }

  /** A text with an optional comma is the text plus a comma, or the text alone, never both. */
  lemma CommaOrNot(text: string, comma: bool)
    ensures text + (if comma then "," else "") == text + "," <==> comma
    ensures text + (if comma then "," else "") == text <==> !comma
  {
    assert |text + ","| != |text|;
    if !comma {
      assert text + "" == text;
    }
  }

  lemma {:induction false} ConcatAppend(a: seq<string>, b: seq<string>)
    ensures Concat(a + b) == Concat(a) + Concat(b)
    decreases |a|
  {
    if a == [] {
      assert a + b == b;
    } else {
      assert (a + b)[1..] == a[1..] + b;
      ConcatAppend(a[1..], b);
    }
  }

  /** Lines that carry a comma after every item but the last join to the comma-separated list. */
  lemma {:induction false} CommaLinesJoin(items: seq<string>, lines: seq<string>)
    requires |lines| == |items|
    requires forall i :: 0 <= i < |items| ==> lines[i] == items[i] + (if i + 1 < |items| then "," else "")
    ensures Concat(lines) == JoinWith(",", items)
    decreases |items|
  {
    if |items| == 1 {
      assert lines[0] == items[0];
      assert Concat(lines) == lines[0] + Concat([]);
    } else if |items| > 1 {
      CommaLinesJoin(items[1..], lines[1..]);
      assert lines[0] == items[0] + ",";
    }
  }

  /**
   * When the record count is the number of rows the cursor yields, the
   * joined chunks are a FeatureCollection whose features array lists the
   * feature texts separated by commas: a comma after every feature but
   * the last, and none after the last.
   */
  lemma DocumentIsFeatureCollection(w: Writer, rows: seq<Row>)
    requires AllSupported(rows) && w.recordCount == |rows|
    ensures Concat(DocumentChunks(w, rows)) == Opening + JoinWith(",", FeatureTexts(w, rows)) + Closing
  {
    var lines := FeatureLines(w, rows);
    CommaLinesJoin(FeatureTexts(w, rows), lines);
    ConcatAppend([Opening] + lines, [Closing]);
    ConcatAppend([Opening], lines);
    assert Concat([Closing]) == Closing + Concat([]);
    assert Concat([Opening]) == Opening + Concat([]);
  }

  /** An empty feature class gives the opening and closing chunks and nothing between. */
  lemma EmptyFeatureClass(w: Writer)
    ensures DocumentChunks(w, []) == [Opening, Closing]
    ensures Concat(DocumentChunks(w, [])) == "{\"type\": \"FeatureCollection\", \"features\": []}"
  {
    assert Concat([Closing]) == Closing + Concat([]);
  }

  /** Three rows: a point, a two-part polyline and a one-ring polygon. */
  function ScenarioRows(): seq<Row>
  {
    [Row(PointGeom(Point(1.1, 2.2)), []),
     Row(PolylineGeom([[Point(0.0, 0.0), Point(1.0, 1.0)], [Point(2.0, 2.0), Point(3.0, 3.0)]]), []),
     Row(PolygonGeom([[Some(Point(0.0, 0.0)), Some(Point(1.0, 0.0)), Some(Point(0.0, 1.0)), Some(Point(0.0, 0.0))]]), [])]
  }

  /** The scenario's geometries become a Point, a MultiLineString and a Polygon. */
  lemma ScenarioGeometryTypes(round: Rounding)
    ensures AllSupported(ScenarioRows())
    ensures GeometryToStruct(round, ScenarioRows()[0].shape).value.value.TypeName() == "Point"
    ensures GeometryToStruct(round, ScenarioRows()[1].shape).value.value.TypeName() == "MultiLineString"
    ensures GeometryToStruct(round, ScenarioRows()[2].shape).value.value.TypeName() == "Polygon"
  {
    var rows := ScenarioRows();
    assert forall i :: 0 <= i < |rows| ==> Supported(rows[i].shape);
  }

  /**
   * With a record count of three, the first two feature lines of the
   * scenario end with a comma and the last does not.
   */
  lemma ScenarioCommas(round: Rounding, serialize: Serializer)
    ensures var w := Writer(round, serialize, [], "Shape", 3);
            && DocumentChunks(w, ScenarioRows())[1] == FeatureTexts(w, ScenarioRows())[0] + ","
            && DocumentChunks(w, ScenarioRows())[2] == FeatureTexts(w, ScenarioRows())[1] + ","
            && DocumentChunks(w, ScenarioRows())[3] == FeatureTexts(w, ScenarioRows())[2]
  {
    ScenarioGeometryTypes(round);
    ChunkLayout(Writer(round, serialize, [], "Shape", 3), ScenarioRows());
  }
}
