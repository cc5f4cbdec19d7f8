/**
 * The GeoJSON output: the geometry of the alert's area (a Polygon for one
 * `<area>` block, a MultiPolygon for several), the single Feature that
 * carries it with the properties, and the FeatureCollection `to_geojson`
 * builds from the XML text.
 */
module GeoJson {
  import opened Wrappers
  import opened CapAlert
  import opened Winding
  import opened Circle
  import opened AreaParsing
  import opened Properties
  import opened Namespace

  /** A GeoJSON geometry: the rings of one polygon, or one such list per polygon. */
  datatype Geometry =
    | Polygon(rings: seq<seq<Position>>)
    | MultiPolygon(polygons: seq<seq<seq<Position>>>)

  /** The geometry's `type` member. */
  function TypeName(g: Geometry): (name: string)
    ensures name == "Polygon" <==> g.Polygon?
    ensures name == "MultiPolygon" <==> g.MultiPolygon?
  {
    match g
    case Polygon(_) => "Polygon"
    case MultiPolygon(_) => "MultiPolygon"
  }

  /** The list comprehension of `get_geometry`: one polygon, of one ring, per area; the first failing area's error. */
  function RegionPolygons(regions: seq<Region>, parse: FloatParser, point: PointOnCircle): (r: Result<seq<seq<seq<Position>>>, Error>)
    ensures r.Success? <==> forall i :: 0 <= i < |regions| ==> PolygonCoordinates(regions[i], parse, point).Success?
    ensures r.Failure? ==> r.error == ValueError
    ensures r.Success? ==> |r.value| == |regions|
    ensures r.Success? ==> forall i :: 0 <= i < |regions| ==> r.value[i] == [PolygonCoordinates(regions[i], parse, point).value]
  {
    if regions == [] then Success([])
    else
      var ring :- PolygonCoordinates(regions[0], parse, point);
      var rest :- RegionPolygons(regions[1..], parse, point);
      Success([[ring]] + rest)
  }

  /** `get_geometry`: a Polygon for one area, a MultiPolygon for a list of areas. */
  function GetGeometry(area: AreaValue, parse: FloatParser, point: PointOnCircle): (r: Result<Geometry, Error>)
    ensures r.Failure? ==> r.error == ValueError
    ensures r.Success? ==> (r.value.Polygon? <==> area.Single?)
    ensures area.Single? ==>
      (r.Success? <==> PolygonCoordinates(area.region, parse, point).Success?) &&
      (r.Success? ==> r.value.rings == [PolygonCoordinates(area.region, parse, point).value])
    ensures area.Multiple? ==>
      (r.Success? <==> forall i :: 0 <= i < |area.regions| ==> PolygonCoordinates(area.regions[i], parse, point).Success?) &&
      (r.Success? ==>
        (|r.value.polygons| == |area.regions| &&
         forall i :: 0 <= i < |area.regions| ==> r.value.polygons[i] == [PolygonCoordinates(area.regions[i], parse, point).value]))
  {
    match area
    case Single(region) =>
      var ring :- PolygonCoordinates(region, parse, point);
      Success(Polygon([ring]))
    case Multiple(regions) =>
      var polygons :- RegionPolygons(regions, parse, point);
      Success(MultiPolygon(polygons))
  }

  /** Every ring of a geometry is a list of pairs. */
  predicate RingsArePairs(g: Geometry) {
    match g
    case Polygon(rings) => forall i :: 0 <= i < |rings| ==> AllPairs(rings[i])
    case MultiPolygon(polygons) =>
      forall i, j :: 0 <= i < |polygons| && 0 <= j < |polygons[i]| ==> AllPairs(polygons[i][j])
  }

  /** Every position of the geometry is a pair of numbers, in the order the CAP text gives them. */
  lemma GeometryIsPairs(area: AreaValue, parse: FloatParser, point: PointOnCircle)
    requires GetGeometry(area, parse, point).Success?
    ensures RingsArePairs(GetGeometry(area, parse, point).value)
  {
  }

  /** A list holding one area gives the same ring as that area on its own, as a MultiPolygon. */
  lemma OneAreaList(region: Region, parse: FloatParser, point: PointOnCircle)
    ensures GetGeometry(Multiple([region]), parse, point).Success? <==> GetGeometry(Single(region), parse, point).Success?
    ensures GetGeometry(Single(region), parse, point).Success? ==>
      GetGeometry(Multiple([region]), parse, point) == Success(MultiPolygon([GetGeometry(Single(region), parse, point).value.rings]))
  {
    var m := GetGeometry(Multiple([region]), parse, point);
    var single := GetGeometry(Single(region), parse, point);
    if m.Success? {
      var ring := PolygonCoordinates(region, parse, point).value;
      assert |m.value.polygons| == 1 && m.value.polygons[0] == [ring];
      assert single.value.rings == [ring];
      assert m.value.polygons == [single.value.rings];
    }
  }

  // ---------------------------------------------------------------------
  // The FeatureCollection

  /** A GeoJSON Feature: the properties object and the geometry. */
  datatype Feature = Feature(properties: PropertyList, geometry: Geometry)

  /** A GeoJSON FeatureCollection. */
  datatype FeatureCollection = FeatureCollection(features: seq<Feature>)

  /**
   * The collection `to_geojson` builds from the parsed alert: the properties
   * first, then the geometry of `info.area`, in one Feature.
   */
  function AlertCollection(alert: Alert, parse: FloatParser, point: PointOnCircle): (r: Result<FeatureCollection, Error>)
    ensures alert.info.None? ==> r == Failure(KeyError("info"))
    ensures alert.info.Some? && alert.info.value.area.None? ==> r == Failure(TypeError)
    ensures GetProperties(alert).Failure? ==> r == Failure(GetProperties(alert).error)
    ensures r.Success? ==> |r.value.features| == 1
    ensures r.Success? ==> r.value.features[0].properties == GetProperties(alert).value
    ensures r.Success? <==>
      GetProperties(alert).Success? && GetGeometry(alert.info.value.area.value, parse, point).Success?
    ensures r.Success? ==>
      r.value.features[0].geometry == GetGeometry(alert.info.value.area.value, parse, point).value
    ensures GetProperties(alert).Success? && GetGeometry(alert.info.value.area.value, parse, point).Failure? ==>
      r == Failure(GetGeometry(alert.info.value.area.value, parse, point).error)
  {
    var properties :- GetProperties(alert);
    var geometry :- GetGeometry(alert.info.value.area.value, parse, point);
    Success(FeatureCollection([Feature(properties, geometry)]))
  }

  /**
   * `xmltodict.parse`: the document the text denotes, or None where the
   * parser raises. Not modelled: it is any such function.
   */
  type XmlParser = string -> Option<Document>

  /**
   * `to_geojson`: strips the namespace prefix from the tags, parses the text
   * and builds the collection from its `alert`; KeyError when there is none.
   */
  function ToGeoJson(xml: string, isWord: WordClass, parseXml: XmlParser, parse: FloatParser, point: PointOnCircle)
    : (r: Result<FeatureCollection, Error>)
    ensures parseXml(StripCapPrefix(xml, isWord)).None? ==> r == Failure(MalformedXml)
    ensures parseXml(StripCapPrefix(xml, isWord)) == Some(Document(None)) ==> r == Failure(KeyError("alert"))
    ensures r.Success? ==>
      var doc := parseXml(StripCapPrefix(xml, isWord));
      doc.Some? && doc.value.alert.Some? && r == AlertCollection(doc.value.alert.value, parse, point)
    ensures var doc := parseXml(StripCapPrefix(xml, isWord));
      doc.Some? && doc.value.alert.Some? ==> r == AlertCollection(doc.value.alert.value, parse, point)
  {
    var processed := StripCapPrefix(xml, isWord);
    match parseXml(processed)
    case None => Failure(MalformedXml)
    case Some(doc) =>
      if doc.alert.None? then Failure(KeyError("alert"))
      else AlertCollection(doc.alert.value, parse, point)
  }

  /** A text whose tags carry no prefix reaches the XML parser unchanged. */
  lemma UnprefixedTextIsParsedAsIs(xml: string, isWord: WordClass, parseXml: XmlParser, parse: FloatParser, point: PointOnCircle)
    requires NoPrefixedTag(xml, isWord)
    ensures ToGeoJson(xml, isWord, parseXml, parse, point) ==
      match parseXml(xml)
      case None => Failure(MalformedXml)
      case Some(doc) => if doc.alert.None? then Failure(KeyError("alert")) else AlertCollection(doc.alert.value, parse, point)
  {
    StripUnchangedIff(xml, isWord);
  }

  /**
   * The feature of a successful conversion carries all twenty-one property
   * keys, and a Polygon exactly when the alert has one area.
   */
  lemma CollectionShape(alert: Alert, parse: FloatParser, point: PointOnCircle)
    requires AlertCollection(alert, parse, point).Success?
    ensures var f := AlertCollection(alert, parse, point).value.features[0];
      |f.properties| == |PropertyKeys| &&
      (forall i :: 0 <= i < |PropertyKeys| ==> f.properties[i].0 == PropertyKeys[i]) &&
      (TypeName(f.geometry) == "Polygon" <==> alert.info.value.area.value.Single?) &&
      RingsArePairs(f.geometry)
  {
  }
}
