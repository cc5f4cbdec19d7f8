/**
 * The parsed CAP alert, as the converter reads it from the mapping the XML
 * parser produces: only the fields the converter consumes, each either
 * present or absent, with string values.
 */
module CapAlert {
  import opened Wrappers

  /** The exceptions the converter can raise, by Python exception class. */
  datatype Error =
    | KeyError(key: string)  // a mapping is indexed with a key it does not have
    | TypeError              // `info` has no `area`, so the area description iterates over None
    | ValueError             // a number does not parse, or a split gives the wrong number of pieces
    | IndexError             // the circle approximation is asked for no points
    | MalformedXml           // the XML parser rejects the document

  /** One `<area>` block: its description and its shape strings, each present or absent. */
  datatype Region = Region(areaDesc: Option<string>, polygon: Option<string>, circle: Option<string>)

  /** `info.area`: one `<area>` block (a mapping) or several (a list, in document order). */
  datatype AreaValue = Single(region: Region) | Multiple(regions: seq<Region>)

  /** The `<info>` block: its text fields by element name, and its area. */
  datatype Info = Info(fields: map<string, string>, area: Option<AreaValue>)

  /** The `<alert>` element: its text fields by element name, and its `<info>` block. */
  datatype Alert = Alert(fields: map<string, string>, info: Option<Info>)

  /** What the XML parser returns: a mapping whose `alert` key may be missing. */
  datatype Document = Document(alert: Option<Alert>)

  /** Python's `d.get(key)`: the value, or None when the key is absent. */
  function Get(m: map<string, string>, key: string): (r: Option<string>)
    ensures r.Some? <==> key in m
    ensures r.Some? ==> r.value == m[key]
  {
    if key in m then Some(m[key]) else None
  }

  /**
   * A GeoJSON position: a list of numbers. A polygon token gives as many
   * numbers as it has comma-separated pieces; only the signed-area
   * computation insists on exactly two.
   */
  type Position = seq<real>

  /** A position of exactly two coordinates: the first number of an "x,y" token, then the second, as the CAP text writes them. */
  type Pair = p: Position | |p| == 2 witness [0.0, 0.0]

  /** Every position of the ring has exactly two coordinates. */
  predicate AllPairs(ring: seq<Position>) {
    forall i :: 0 <= i < |ring| ==> |ring[i]| == 2
  }
}
