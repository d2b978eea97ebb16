/** core.go: the per-feature geometry dispatch and the conversion loop, from
    an already decoded ArcGIS document to GeoJSON features. */
module Features {
  import opened Wrappers
  import opened Ids
  import Seqs
  import Rings
  import Assembly

  // ---------------------------------------------------------------------------
  // Data model

  /** A planar GeoJSON position (x, y); extra coordinates are dropped. */
  datatype Coord = Coord(x: real, y: real)

  /** The geometry of an output feature; NoGeometry is a feature without one. */
  datatype Geometry =
    | NoGeometry
    | Point(coord: Coord)
    | MultiPoint(points: seq<Coord>)
    | LineString(line: seq<Coord>)
    | MultiLineString(lines: seq<seq<Coord>>)
    | Polygon(rings: seq<seq<Coord>>)
    | MultiPolygon(polygons: seq<seq<seq<Coord>>>)

  datatype Feature = Feature(geometry: Geometry, properties: map<string, Json>, id: Option<Json>)

  datatype ArcGISGeometry = ArcGISGeometry(points: seq<Rings.Point>, paths: seq<seq<Rings.Point>>, rings: seq<Rings.Ring>)

  datatype ArcGISFeature = ArcGISFeature(
    attributes: map<string, Json>,
    geometry: ArcGISGeometry,
    x: real, y: real, z: real,
    xmin: real, xmax: real, ymin: real, ymax: real,
    paths: seq<seq<Rings.Point>>,
    points: seq<Rings.Point>,
    rings: seq<Rings.Ring>)

  datatype SpatialReference = SpatialReference(wkid: int, latestWkid: int)

  datatype Field = Field(name: string, fieldType: string, alias: string, length: int)

  datatype ArcGISJSON = ArcGISJSON(
    displayFieldName: string,
    fieldAliases: map<string, string>,
    geometryType: string,
    spatialReference: SpatialReference,
    fields: seq<Field>,
    features: seq<ArcGISFeature>)

  /** The only spatial reference Convert accepts (WGS 84). */
  const Wgs84: int := 4326

  const WkidError: string := "error: arc gis features must be in wkid 4326 for valid conversion to geojson"

  // ---------------------------------------------------------------------------
  // Coordinates

  function ToCoord(p: Rings.Point): Coord
  {
    Coord(p[0], p[1])
  }

  function Coords(pts: seq<Rings.Point>): seq<Coord>
  {
    seq(|pts|, i requires 0 <= i < |pts| => ToCoord(pts[i]))
  }

  function LinesCoords(lines: seq<seq<Rings.Point>>): seq<seq<Coord>>
  {
    seq(|lines|, i requires 0 <= i < |lines| => Coords(lines[i]))
  }

  /** The append loop that turns a list of ArcGIS points into orb points,
      keeping their order and their x and y. */
  method ToLine(pts: seq<Rings.Point>) returns (line: seq<Coord>)
    ensures line == Coords(pts)
  {
    line := [];
    var i := 0;
    while i < |pts|
      invariant 0 <= i <= |pts|
      invariant line == Coords(pts[..i])
    {
      line := line + [Coord(pts[i][0], pts[i][1])];
      i := i + 1;
    }
    assert pts[..i] == pts;
  }

  // ---------------------------------------------------------------------------
  // Points, paths, rings, bounding box

  function PointsGeometry(points: seq<Rings.Point>): Geometry
  {
    if |points| == 0 then NoGeometry
    else if |points| == 1 then Point(ToCoord(points[0]))
    else MultiPoint(Coords(points))
  }

  /** pointsToFeature. */
  method PointsToFeature(points: seq<Rings.Point>) returns (g: Geometry)
    ensures g == PointsGeometry(points)
    ensures g.NoGeometry? <==> |points| == 0
    ensures g.Point? <==> |points| == 1
    ensures g.MultiPoint? ==>
      |g.points| == |points| >= 2 &&
      forall i :: 0 <= i < |points| ==> g.points[i] == Coord(points[i][0], points[i][1])
  {
    g := NoGeometry;
    if |points| == 0 {
      return;
    }
    if |points| == 1 {
      g := Point(Coord(points[0][0], points[0][1]));
    } else {
      var mp := ToLine(points);
      g := MultiPoint(mp);
    }
  }

  function PathsGeometry(paths: seq<seq<Rings.Point>>): Geometry
  {
    if |paths| == 0 then NoGeometry
    else if |paths| == 1 then LineString(Coords(paths[0]))
    else MultiLineString(LinesCoords(paths))
  }

  /** pathsToFeature. */
  method PathsToFeature(paths: seq<seq<Rings.Point>>) returns (g: Geometry)
    ensures g == PathsGeometry(paths)
    ensures g.NoGeometry? <==> |paths| == 0
    ensures g.LineString? <==> |paths| == 1
    ensures g.MultiLineString? ==>
      |g.lines| == |paths| >= 2 &&
      forall i :: 0 <= i < |paths| ==> g.lines[i] == Coords(paths[i])
  {
    g := NoGeometry;
    if |paths| == 0 {
      return;
    }
    if |paths| == 1 {
      var ls := ToLine(paths[0]);
      g := LineString(ls);
    } else {
      var mls: seq<seq<Coord>> := [];
      var i := 0;
      while i < |paths|
        invariant 0 <= i <= |paths|
        invariant mls == LinesCoords(paths[..i])
      {
        var ls := ToLine(paths[i]);
        mls := mls + [ls];
        i := i + 1;
      }
      assert paths[..i] == paths;
      g := MultiLineString(mls);
    }
  }

  /** What ringsToFeature builds: nothing for no rings, a Polygon when exactly
      one ring comes back, and otherwise a MultiPolygon holding one polygon
      made of every returned ring, in order. */
  ghost function RingsGeometry(rings: seq<Rings.Ring>): Geometry
    requires Assembly.AllClosable(rings)
  {
    if |rings| == 0 then NoGeometry
    else
      var out := Assembly.Assemble(rings);
      if |out| == 1 then Polygon([Coords(out[0])]) else MultiPolygon([LinesCoords(out)])
  }

  /** ringsToFeature. */
  method RingsToFeature(rings: seq<Rings.Ring>) returns (g: Geometry)
    requires Assembly.AllClosable(rings)
    ensures g == RingsGeometry(rings)
    ensures g.NoGeometry? <==> |rings| == 0
    ensures g.Polygon? <==> |rings| > 0 && |Assembly.KeptRings(rings)| == 1
    ensures g.Polygon? ==> |g.rings| == 1
    ensures g.MultiPolygon? ==> |g.polygons| == 1 && |g.polygons[0]| == |Assembly.KeptRings(rings)|
  {
    g := NoGeometry;
    if |rings| == 0 {
      return;
    }
    var outerRings := Assembly.ConvertRingsToGeoJSON(rings);
    var newRings: seq<seq<Coord>> := [];
    var i := 0;
    while i < |outerRings|
      invariant 0 <= i <= |outerRings|
      invariant newRings == LinesCoords(outerRings[..i])
    {
      var ring := ToLine(outerRings[i]);
      assert outerRings[..i + 1] == outerRings[..i] + [outerRings[i]];
      newRings := newRings + [ring];
      i := i + 1;
    }
    assert outerRings[..i] == outerRings;
    assert |newRings| == |outerRings| == |Assembly.KeptRings(rings)|;
    if |outerRings| == 1 {
      g := Polygon([newRings[0]]);
    } else {
      g := MultiPolygon([newRings]);
    }
  }

  /** The ring boundingBoxToFeature draws from [xmin, ymin, xmax, ymax]:
      (xmax,ymax), (xmin,ymax), (xmin,ymin), (xmax,ymin), (xmax,ymax). */
  function BoxRing(bbox: seq<real>): (r: Rings.Ring)
    requires |bbox| >= 4
  {
    [[bbox[2], bbox[3]], [bbox[0], bbox[3]], [bbox[0], bbox[1]], [bbox[2], bbox[1]], [bbox[2], bbox[3]]]
  }

  /** boundingBoxToFeature: a Polygon with one closed five-point ring. */
  function BoundingBoxToFeature(bbox: seq<real>): (g: Geometry)
    requires |bbox| >= 4
    ensures g.Polygon? && |g.rings| == 1 && |g.rings[0]| == 5
    ensures g.rings[0][0] == g.rings[0][4] == Coord(bbox[2], bbox[3])
    ensures g.rings[0][1] == Coord(bbox[0], bbox[3])
    ensures g.rings[0][2] == Coord(bbox[0], bbox[1])
    ensures g.rings[0][3] == Coord(bbox[2], bbox[1])
  {
    Polygon([Coords(BoxRing(bbox))])
  }

  /** The bounding-box ring is already closed, and for a box with xmin < xmax
      and ymin < ymax its winding sum is negative: it runs counter-clockwise,
      the exterior orientation of section 3.1.6 of RFC 7946. */
  lemma BoxRingWinding(bbox: seq<real>)
    requires |bbox| >= 4
    ensures Rings.CloseRing(BoxRing(bbox)) == BoxRing(bbox)
    ensures Rings.WindingSum(BoxRing(bbox)) == 2.0 * (bbox[2] - bbox[0]) * (bbox[1] - bbox[3])
    ensures bbox[0] < bbox[2] && bbox[1] < bbox[3] ==> !Rings.Clockwise(BoxRing(bbox))
  {
    var r := BoxRing(bbox);
    var r1, r2, r3, r4 := r[..1], r[..2], r[..3], r[..4];
    assert r4[..3] == r3 && r3[..2] == r2 && r2[..1] == r1;
    assert Rings.WindingSum(r1) == 0.0;
    assert Rings.WindingSum(r2) == Rings.EdgeTerm(r[0], r[1]);
    assert Rings.WindingSum(r3) == Rings.WindingSum(r2) + Rings.EdgeTerm(r[1], r[2]);
    assert Rings.WindingSum(r4) == Rings.WindingSum(r3) + Rings.EdgeTerm(r[2], r[3]);
    assert Rings.WindingSum(r) == Rings.WindingSum(r4) + Rings.EdgeTerm(r[3], r[4]);
    if bbox[0] < bbox[2] && bbox[1] < bbox[3] {
      assert (bbox[2] - bbox[0]) * (bbox[1] - bbox[3]) < 0.0;
    }
  }

  // ---------------------------------------------------------------------------
  // featureToFeature

  predicate HasXY(f: ArcGISFeature)
  {
    f.x != 0.0 && f.y != 0.0
  }

  predicate HasBox(f: ArcGISFeature)
  {
    f.xmin != 0.0 && f.ymin != 0.0 && f.xmax != 0.0 && f.ymax != 0.0
  }

  /** Every ring list a feature carries can be closed (the source indexes the
      first point of each ring). */
  predicate WellFormed(f: ArcGISFeature)
  {
    Assembly.AllClosable(f.rings) && Assembly.AllClosable(f.geometry.rings)
  }

  /** The geometry of the converted feature: the last applicable check in the
      source's order wins, so it is read here from the highest precedence down. */
  ghost function GeometryOf(f: ArcGISFeature): Geometry
    requires WellFormed(f)
  {
    if HasBox(f) then BoundingBoxToFeature([f.xmin, f.ymin, f.xmax, f.ymax])
    else if |f.geometry.rings| != 0 then RingsGeometry(f.geometry.rings)
    else if |f.rings| != 0 then RingsGeometry(f.rings)
    else if |f.geometry.paths| != 0 then PathsGeometry(f.geometry.paths)
    else if |f.paths| != 0 then PathsGeometry(f.paths)
    else if |f.geometry.points| != 0 then PointsGeometry(f.geometry.points)
    else if |f.points| != 0 then PointsGeometry(f.points)
    else if HasXY(f) then Point(Coord(f.x, f.y))
    else NoGeometry
  }

  /** The kind of geometry a feature gets, read off the overwrite order: a
      bounding box beats rings, rings beat paths, paths beat points, and points
      beat x/y; a feature with none of them has no geometry. */
  lemma GeometryPrecedence(f: ArcGISFeature)
    requires WellFormed(f)
    ensures (GeometryOf(f).Polygon? || GeometryOf(f).MultiPolygon?) <==>
      HasBox(f) || f.geometry.rings != [] || f.rings != []
    ensures (GeometryOf(f).LineString? || GeometryOf(f).MultiLineString?) <==>
      !HasBox(f) && f.geometry.rings == [] && f.rings == [] && (f.geometry.paths != [] || f.paths != [])
    ensures (GeometryOf(f).Point? || GeometryOf(f).MultiPoint?) <==>
      !HasBox(f) && f.geometry.rings == [] && f.rings == [] && f.geometry.paths == [] && f.paths == [] &&
      (f.geometry.points != [] || f.points != [] || HasXY(f))
    ensures GeometryOf(f).NoGeometry? <==>
      !HasBox(f) && f.geometry.rings == [] && f.rings == [] && f.geometry.paths == [] && f.paths == [] &&
      f.geometry.points == [] && f.points == [] && !HasXY(f)
  {
  }

  /** A feature carrying one ring: a degenerate ring gives a MultiPolygon with
      one empty polygon; otherwise a Polygon whose ring is the input reversed
      when its own sum is <= 0, and the input as given when it is positive
      (the promoted hole is reversed back). */
  lemma SingleRingGeometry(r: Rings.Ring)
    requires Rings.Closable(r)
    ensures RingsGeometry([r]) ==
      if !Assembly.Kept(r) then MultiPolygon([[]])
      else if Rings.WindingSum(r) <= 0.0 then Polygon([Coords(Seqs.Reverse(r))])
      else Polygon([Coords(r)])
  {
    Assembly.AssembleSingleRing(r);
  }

  /** The rings of the (first) polygon of a polygonal geometry. */
  function PolygonRings(g: Geometry): seq<seq<Coord>>
  {
    if g.Polygon? then g.rings
    else if g.MultiPolygon? && |g.polygons| > 0 then g.polygons[0]
    else []
  }

  /** c is the x/y projection of one of the rings in rs, as given or reversed. */
  ghost predicate ProjectsOneOf(c: seq<Coord>, rs: seq<Rings.Ring>)
  {
    exists k :: 0 <= k < |rs| && (c == Coords(rs[k]) || c == Coords(Seqs.Reverse(rs[k])))
  }

  /** Every ring of a converted polygon is the x/y projection of one kept
      input ring, either as given or reversed, and there is one per kept ring. */
  lemma RingsGeometryFromInput(rings: seq<Rings.Ring>)
    requires Assembly.AllClosable(rings) && |rings| > 0
    ensures RingsGeometry(rings).Polygon? || RingsGeometry(rings).MultiPolygon?
    ensures |PolygonRings(RingsGeometry(rings))| == |Assembly.KeptRings(rings)|
    ensures forall i :: 0 <= i < |PolygonRings(RingsGeometry(rings))| ==>
      ProjectsOneOf(PolygonRings(RingsGeometry(rings))[i], Assembly.KeptRings(rings))
  {
    Assembly.AssembleEntriesFromKept(rings);
    Assembly.AssembleConserves(rings);
    var out, kept := Assembly.Assemble(rings), Assembly.KeptRings(rings);
    var rs := PolygonRings(RingsGeometry(rings));
    assert rs == LinesCoords(out);
    forall i | 0 <= i < |rs|
      ensures ProjectsOneOf(rs[i], kept)
    {
      var k :| 0 <= k < |kept| && (out[i] == kept[k] || out[i] == Seqs.Reverse(kept[k]));
      assert rs[i] == Coords(out[i]);
    }
  }

  function IdOf(attributes: map<string, Json>, idAttribute: string): Option<Json>
  {
    match GetId(attributes, idAttribute)
    case Success(v) => Some(v)
    case Failure(_) => None
  }

  ghost function FeatureSpec(f: ArcGISFeature, idAttribute: string): Feature
    requires WellFormed(f)
  {
    Feature(GeometryOf(f), f.attributes, IdOf(f.attributes, idAttribute))
  }

  /** The geometry half of featureToFeature: each applicable check overwrites
      the geometry chosen by the ones before it. */
  method FeatureGeometry(f: ArcGISFeature) returns (geometry: Geometry)
    requires WellFormed(f)
    ensures geometry == GeometryOf(f)
  {
    geometry := NoGeometry;

    if f.x != 0.0 && f.y != 0.0 {
      geometry := PointsToFeature([[f.x, f.y]]);
    }

    if |f.points| != 0 {
      geometry := PointsToFeature(f.points);
    }
    if |f.geometry.points| != 0 {
      geometry := PointsToFeature(f.geometry.points);
    }

    if |f.paths| != 0 {
      geometry := PathsToFeature(f.paths);
    }
    if |f.geometry.paths| != 0 {
      geometry := PathsToFeature(f.geometry.paths);
    }

    if |f.rings| != 0 {
      geometry := RingsToFeature(f.rings);
    }
    if |f.geometry.rings| != 0 {
      geometry := RingsToFeature(f.geometry.rings);
    }

    var bbox := [f.xmin, f.ymin, f.xmax, f.ymax];
    if bbox[0] != 0.0 && bbox[1] != 0.0 && bbox[2] != 0.0 && bbox[3] != 0.0 {
      geometry := BoundingBoxToFeature(bbox);
    }
  }

  /** featureToFeature. */
  method FeatureToFeature(f: ArcGISFeature, idAttribute: string) returns (feature: Feature)
    requires WellFormed(f)
    ensures feature == FeatureSpec(f, idAttribute)
    ensures feature.properties == f.attributes
    ensures feature.id.Some? <==> idAttribute in f.attributes || "OBJECTID" in f.attributes || "FID" in f.attributes
  {
    var geometry := FeatureGeometry(f);

    var properties: map<string, Json> := map[];
    var keys := f.attributes.Keys;
    while keys != {}
      invariant keys <= f.attributes.Keys
      invariant properties.Keys == f.attributes.Keys - keys
      invariant forall k :: k in properties ==> properties[k] == f.attributes[k]
      decreases keys
    {
      var k :| k in keys;
      properties := properties[k := f.attributes[k]];
      keys := keys - {k};
    }
    assert properties == f.attributes;

    var id := None;
    var found := GetId(f.attributes, idAttribute);
    if found.Success? {
      id := Some(found.value);
    }
    feature := Feature(geometry, properties, id);
  }

  // ---------------------------------------------------------------------------
  // Convert

  /** Convert, from the decoded document on: refuses any spatial reference
      other than WKID 4326, and otherwise converts every feature, in order. */
  method Convert(data: ArcGISJSON, idAttribute: string) returns (r: Result<seq<Feature>, string>)
    requires data.spatialReference.wkid == Wgs84 ==>
      forall i :: 0 <= i < |data.features| ==> WellFormed(data.features[i])
    ensures r.Failure? <==> data.spatialReference.wkid != Wgs84
    ensures r.Failure? ==> r.error == WkidError
    ensures r.Success? ==> |r.value| == |data.features|
    ensures r.Success? ==> forall i :: 0 <= i < |data.features| ==>
      r.value[i] == FeatureSpec(data.features[i], idAttribute)
  {
    if data.spatialReference.wkid != Wgs84 {
      return Failure(WkidError);
    }
    var features: seq<Feature> := [];
    if |data.features| != 0 {
      var i := 0;
      while i < |data.features|
        invariant 0 <= i <= |data.features|
        invariant |features| == i
        invariant forall k :: 0 <= k < i ==> features[k] == FeatureSpec(data.features[k], idAttribute)
      {
        var f := data.features[i];
        var feature := FeatureToFeature(f, idAttribute);
        features := features + [feature];
        i := i + 1;
      }
    }
    return Success(features);
  }
}
