# GeoJSON writer for feature classes, modelled in Dafny

This project models the structural core of `geojson_out.py` from
geojson-madness. That module turns the rows of a GIS feature class into a
GeoJSON FeatureCollection (RFC 7946) and writes it as a stream of text
chunks. The model covers four parts:

- **Ring splitting** (`RingSplit`). `part_split_at_nones` turns one polygon
  part into rings. Its vertex list is interleaved with `None` markers,
  and every maximal run of vertices becomes one ring. The generator is the
  imperative method `PartSplitAtNones`. It is proved equal to the reference
  function `SplitAtNones`, and lemmas say what that function means. The
  geometry mapper is a function, so it splits rings with `SplitAtNones`.
- **Geometry mapping** (`GeometryMapper`). `geometry_to_struct` maps a
  geometry to a GeoJSON geometry object (section 3.1 of RFC 7946), to null,
  or to the error `ValueError(geometry)`. A polyline or polygon becomes the
  singular type exactly when it has one part. Otherwise it becomes the
  `Multi` type, and that includes zero parts.
- **Properties** (`Properties`). This covers the alias table, the column
  names taken from the cursor fields, and the property dictionary
  `dict(zip(col_names, row[1:]))` with the shape field deleted. A Python
  dict is modelled as a list of entries in insertion order. Assigning to a
  present key replaces its value where it stands. A new key goes at the end.
- **Chunk framing** (`FeatureStream`). `geojson_lines_for_feature_class` is
  an imperative method. It builds the opening chunk, then one line per row,
  then `]}`. A line ends with a comma while the running counter is below the
  record count taken before the cursor is read. `get_geojson_string` is the
  concatenation of those chunks.

The inputs are what the data-store API reports: field list, shape field
name, record count, cursor field names and rows. They are plain values of
the `FeatureClass` datatype. Coordinate rounding is a parameter
`round: real -> real`, applied to each coordinate. `json.dumps` is a
parameter `serialize: Json -> string`, applied to a small JSON value model
(`Json`) whose objects keep their key order.

These behaviours of the code are modelled as written, though a reader of
RFC 7946 might expect otherwise:

- Commas depend on the precomputed record count, not on which row is last.
  If the count is stale, the document gets a trailing comma or loses commas
  (`FeatureStream.ChunkLayout`). When the count equals the number of rows,
  the document is a proper comma-separated array
  (`FeatureStream.DocumentIsFeatureCollection`).
- The column names are filtered, but the values `row[1:]` are not, and
  `zip` stops at the shorter list. A system column placed before an
  ordinary column therefore shifts the values
  (`Properties.FilteredNamesMeetUnfilteredValues`).
- The shape field is deleted under its raw name, but the keys are display
  names. A shape field with an alias therefore stays in the properties
  (`Properties.AliasedShapeFieldIsKept`).
- A polyline or polygon with zero parts becomes the `Multi` type with empty
  coordinates.

## Model

| member | source | states |
|---|---|---|
| `RingSplit.SplitAtNones` | geojson_out.py:15-25 | The rings of one polygon part, as a function: a marker closes the ring under construction if it is non-empty, and a vertex is rounded and appended to it. Its properties are stated by the lemmas below. |
| `RingSplit.PartSplitAtNones` | geojson_out.py:15-25 | The generator's rings are the reference split. No ring is empty. Laid end to end, the rings are the input's rounded vertices in order. There is one ring per maximal run of vertices. |
| `RingSplit.SplitNeverEmpty` | geojson_out.py:18-25 | A marker with nothing collected yields nothing, and neither does an empty tail, so every ring is non-empty. |
| `RingSplit.SplitFlattens` | geojson_out.py:17-23 | Flattening the rings gives exactly the non-`None` items, rounded, in their original order. |
| `RingSplit.SplitCountsRuns` | geojson_out.py:15-25 | The number of rings is the number of maximal runs of vertices. |
| `RingSplit.NoVerticesNoRings` | geojson_out.py:15-25 | An empty or all-`None` input yields no rings. |
| `RingSplit.SplitJoinRoundTrip` | geojson_out.py:15-25 | Non-empty rings joined with one marker between neighbours split back into those rings, rounded, one for one and in order. |
| `GeometryMapper.SplitParts` | geojson_out.py:50-51 | One list of rings per polygon part, in part order, each split with `SplitAtNones`. Used by `GeometryToStruct`, whose contract states it. |
| `GeometryMapper.GeometryToStruct` | geojson_out.py:27-63 | Null maps to null. Other tags map to an error carrying the geometry, and nothing else maps to an error. A point maps to `Point` at the rounded position. A polyline maps to `LineString` exactly when it has one part, and either form lists the rounded parts in part order. A polygon maps to `Polygon` exactly when it has one part, and either form lists each part's split rings in part order. |
| `GeometryMapper.SingularOrMulti` | geojson_out.py:36-61 | A mapped polyline or polygon has the singular type name exactly when its part count is one, and the `Multi` name exactly when it is not. |
| `GeometryMapper.GeometryJson` | geojson_out.py:32-61 | The geometry dictionary has the keys `type` and `coordinates`, and its `type` is the geometry's type name. `GeometryJsonRoundTrip` states what `coordinates` holds. |
| `GeometryMapper.GeometryJsonRoundTrip` | geojson_out.py:32-61 | Reading the dictionary back gives the geometry itself. The `type` names the kind. `coordinates` holds every rounded position as a two-number array, in order, nested one array per level: point, line string, list of rings or lines, list of polygons. |
| `Properties.AliasTable` | geojson_out.py:88-91 | The dictionary comprehension over the field list, one assignment per field in order. Its meaning is stated by `AliasTableKeys` and `AliasTableLastWins`. |
| `Properties.AliasTableKeys` | geojson_out.py:88-91 | The alias table has an entry for exactly the listed field names. |
| `Properties.AliasTableLastWins` | geojson_out.py:88-91 | A name maps to the alias of the last field listed under it, or to the name itself when that alias is empty. |
| `Properties.KeepColumns` | geojson_out.py:99 | The kept columns contain no `Shape_Area` or `Shape_Length`. Every other column is kept as often as it occurs. The kept columns are a subsequence of the input, so the order is preserved. |
| `Properties.ColumnNames` | geojson_out.py:88-99 | There is one name per kept cursor field after the first, in order. Each name is the display name of the last field listed under it, or the raw name when no field is listed. |
| `Properties.Insert` | geojson_out.py:106 | `d[k] = v` on an insertion-ordered dictionary. Its meaning is stated by `InsertGet`, `InsertKeys` and `InsertUnique`. |
| `Properties.InsertGet` | geojson_out.py:106 | After `d[k] = v`, key `k` holds `v` and every other key keeps its value. |
| `Properties.InsertKeys` | geojson_out.py:106 | A present key keeps its position. A new key is appended. |
| `Properties.InsertUnique` | geojson_out.py:106 | Assignment never duplicates a key. |
| `Properties.FromPairs` | geojson_out.py:106 | `dict(pairs)`: the pairs assigned one after another into an empty dictionary. Its meaning is stated by the three lemmas below. |
| `Properties.FromPairsKeys` | geojson_out.py:106 | `dict(pairs)` has the keys of the pairs, each exactly once. |
| `Properties.FromPairsOrder` | geojson_out.py:106 | The keys of `dict(pairs)` are those of the pairs in order of first appearance. A repeated key is not listed again. |
| `Properties.FromPairsGet` | geojson_out.py:106 | Each key of `dict(pairs)` holds the value assigned to it last. |
| `Properties.FromPairsDistinct` | geojson_out.py:106 | Pairs with distinct keys come back from `dict(pairs)` unchanged and in order. |
| `Properties.Delete` | geojson_out.py:107-108 | `del d[k]`. Its meaning is stated by `DeleteSpec`. |
| `Properties.DeleteSpec` | geojson_out.py:107-108 | After `del d[k]`, the keys are the old keys without `k`, in their order. Every other key keeps its value. The remaining entries are a subsequence of the old ones. Keys stay unique. Nothing changes when `k` was absent. |
| `Properties.Zip` | geojson_out.py:106 | `zip(col_names, row[1:])`, which stops at the shorter list. `ZipKeys` and `PropertyDictSpec` state its effect on the properties. |
| `Properties.ZipKeys` | geojson_out.py:106 | The keys of the zip are the column names that met a value, in order. |
| `Properties.PropertyDict` | geojson_out.py:106-108 | The property dictionary of one row. Its meaning is stated by `PropertyDictSpec`. |
| `Properties.PropertyDictSpec` | geojson_out.py:106-108 | The keys are the column names that met a value (the zip truncates to the shorter list), in order of first appearance, once each, without the shape field. Each holds the value paired with it last. With distinct names, the dict is the zip in column order minus the shape field's entry. |
| `Properties.FilteredNamesMeetUnfilteredValues` | geojson_out.py:99-106 | With `Shape_Area` before `NAME`, the `NAME` property holds the area value and the name value is dropped. |
| `Properties.AliasedShapeFieldIsKept` | geojson_out.py:85-108 | A shape field whose alias differs from its name stays in the properties under the alias. |
| `Properties.SharedAliasRepeatsName` | geojson_out.py:88-99 | Two fields with the alias `X` give the column names `X`, `X`. |
| `Properties.RepeatedNameKeepsFirstPlace` | geojson_out.py:106 | For the names `C`, `X`, `X` with values 0, 1, 2, the properties are `C: 0` then `X: 2`. The repeated key keeps its first place and takes the last value. |
| `FeatureStream.FeatureJson` | geojson_out.py:109-113 | A feature's keys are `type`, `properties` and `geometry`, in that order. The type is `Feature`. The properties hold exactly the dictionary's entries, in its order, each value as its JSON value. The geometry is JSON null exactly when there is no geometry, and otherwise it is the geometry dictionary. |
| `FeatureStream.FeatureLine` | geojson_out.py:114-117 | One feature's chunk: two spaces, the serialized feature, and a comma when the counter is below the record count. `ChunkLayout` states the comma rule. |
| `FeatureStream.FirstUnsupported` | geojson_out.py:101-105 | Gives the index of the first row whose geometry raises: every earlier row is supported. |
| `FeatureStream.GeojsonLinesForFeatureClass` | geojson_out.py:84-118 | With no failing geometry, the chunks are the document: the opening, one line per row in order with a comma iff counter < record count, and `]}`. When row k is the first unsupported one, the result is the chunks yielded before the error (the opening and lines 1..k), together with the error carrying that row's geometry. |
| `FeatureStream.GetGeojsonString` | geojson_out.py:120-121 | The text is the concatenation of the chunks, or the error of the first unsupported row. |
| `FeatureStream.Concat` | geojson_out.py:121 | `''.join(chunks)`. `ConcatAppend` and `DocumentIsFeatureCollection` state what it gives. |
| `FeatureStream.ChunkLayout` | geojson_out.py:100-118 | There are rows + 2 chunks: first the opening literal, last `]}`. Line i (1-based) is its feature's indented text with a trailing comma iff i < record count, and without one iff not. |
| `FeatureStream.DocumentIsFeatureCollection` | geojson_out.py:100-118 | When the record count equals the number of rows, the joined chunks are the opening, then the feature texts separated by commas with none after the last, then `]}`. |
| `FeatureStream.EmptyFeatureClass` | geojson_out.py:100-118 | Zero rows give exactly the opening and closing chunks, and the text `{"type": "FeatureCollection", "features": []}`. |
| `FeatureStream.ScenarioGeometryTypes` | geojson_out.py:27-63 | A point, a two-part polyline and a one-ring polygon are all supported and map to `Point`, `MultiLineString` and `Polygon`. |
| `FeatureStream.ScenarioCommas` | geojson_out.py:100-118 | For the same three rows with a record count of 3, the first two feature lines end with a comma and the last does not. |

## Left out

- The data-store API (`Describe`, `SpatialReference`, `ListFields`, `GetCount`, `SearchCursor`) is foreign-library glue. Its results are the fields of `FeatureClass`.
- Reprojection to WGS 84 is done by the cursor, so the points arrive already reprojected.
- `round(x, 6)` is floating-point arithmetic. It is the opaque parameter `round`, and coordinates are `real`.
- `json.dumps` is the opaque parameter `serialize`. JSON escaping, number formatting and the absence of newlines are not modelled.
- `utf8ify` is Python 2 text-encoding handling on the yielded strings. Chunks are modelled as already-decoded strings.
- Key order and the Python version: `utf8ify` tests `isinstance(output, unicode)` (geojson_out.py:68), and Python 3 has no `unicode`. Read as written, the decorated generator raises `NameError` on its first chunk under Python 3, so the module only produces output under Python 2. There, `property_dict` and the geometry dictionaries are plain `dict`s whose key order is unspecified. The key orders stated by `GeometryJson`, `FeatureJson`, `FromPairsOrder`, `FromPairsDistinct`, `DeleteSpec` and `PropertyDictSpec` are those of an insertion-ordered dictionary (Python 3.7+). Under Python 2 only the key sets and values hold, and those are stated separately. The order of the three feature keys is an `OrderedDict` and holds in both.
- Progress reporting (`SetProgressor`, `SetProgressorPosition` every 100 rows) is observational only.
- `write_geojson_file` is file I/O. `post_gist` and `write_geojson_gist` are HTTP and logging. The version-conditional imports are not modelled.
- Laziness is not modelled. The generator is modelled as the list of chunks it yields, plus the chunks yielded before an error.
- Attribute values are null, integer, real or text. Other cursor value types (dates, blobs) are not modelled.
- Polyline parts are modelled without `None` markers. The source rounds every item of a polyline part and has no marker handling there.
