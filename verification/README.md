# cap2geojson in Dafny

A model of the converter at the core of cap2geojson
(`src/cap2geojson/convert.py`). The converter turns a Common Alerting
Protocol (CAP 1.2) alert, given as XML text, into a GeoJSON
FeatureCollection holding a single Feature:

- **Tags.** The `cap:` namespace prefix is removed from element tags.
- **Properties.** The properties object has twenty-one keys:
  - six copied from `<alert>`;
  - fourteen copied from its `<info>` block;
  - the area description, which joins the descriptions of several
    `<area>` blocks with ", ".
- **Geometry.** The geometry is a Polygon for one `<area>` and a
  MultiPolygon for several. Each area gives one ring:
  - a `circle` ("x,y r") gives a 100-point approximation, closed by
    repeating its first point;
  - otherwise a `polygon` ("x,y x,y …" with stray newlines) gives a ring,
    reversed when its shoelace signed area is negative, so that exterior
    rings wind counter-clockwise as RFC 7946 section 3.1.6 asks;
  - with neither, the ring is empty.

The modules follow the converter's functions:

| module | file | models |
|---|---|---|
| `Wrappers` | wrappers.dfy | Option and Result (with `:-` propagation) |
| `Text` | text.dfy | the Python string operations used: `split(sep)`, `split()`, `join`, `replace(c, "")` |
| `CapAlert` | cap_alert.dfy | the parsed alert as the converter reads it, and the Python exceptions it can raise |
| `Properties` | properties.dfy | `get_properties`, `get_area_desc` |
| `Winding` | winding.dfy | `ensure_counter_clockwise` and its `signed_area` (in place, on an array) |
| `Circle` | circle.dfy | `get_all_circle_coords` (its structure) |
| `AreaParsing` | area_parsing.dfy | `get_polygon_coordinates` |
| `Namespace` | namespace.dfy | `preprocess_alert` |
| `GeoJson` | geojson.dfy | `get_geometry`, the Feature and FeatureCollection, `to_geojson` |

### Parameters and error paths

Python exceptions become `Failure` values of a `Result`:

- `KeyError(key)`;
- `TypeError`, raised when `info` has no `area` and the description code
  iterates over None;
- `ValueError`, raised by a number that does not parse or an unpacking of
  the wrong length;
- `IndexError`;
- an XML parse failure.

The parts of the converter that call into code this model cannot see are
function parameters:

- `float()` is a `FloatParser`, any function from strings to optional reals;
- the point on the circle at an angle (cosine, sine and rounding) is a `PointOnCircle`;
- the regular-expression class `\w` is a `WordClass`;
- `xmltodict.parse` is an `XmlParser`.

### Behaviour modelled as written

Polygon strings have every newline deleted before they are split on
whitespace. Two "x,y" pairs separated only by a newline therefore become
one token, for example "1,23,4", and the polygon is rejected with a
ValueError. The model keeps this behaviour; `AreaParsing.NewlineIsNotASeparator`
states it.

## Model

| member | source | states |
|---|---|---|
| `Text.Split` | src/cap2geojson/convert.py:139 | `str.split(sep)`: one more piece than occurrences of the separator; no piece holds the separator |
| `Text.Join` | src/cap2geojson/convert.py:59 | `sep.join(parts)`: as long as the parts together plus one separator between each two (its contents are given by `JoinAsConcat` and `JoinSplit`) |
| `Text.JoinSplit` | src/cap2geojson/convert.py:141 | joining the pieces of `s.split(sep)` with `sep` gives back `s` |
| `Text.SplitJoinRoundTrip` | src/cap2geojson/convert.py:148 | splitting `sep.join(parts)` gives back `parts` when no part holds `sep` |
| `Text.SplitAtSeparator` | src/cap2geojson/convert.py:139 | splitting `a + sep + b` is splitting `a`, then splitting `b` |
| `Text.JoinAsConcat` | src/cap2geojson/convert.py:59 | `sep.join(parts)` is the first part followed by every later part with `sep` in front |
| `Text.SplitJoin` | src/cap2geojson/convert.py:59 | splitting a list joined with `sep + tail` gives the first part, then every later part prefixed by `tail` |
| `Text.Remove` | src/cap2geojson/convert.py:147 | `replace(c, "")`: the result has no `c` and is shorter by the number of occurrences of `c` |
| `Text.RemoveAppend` | src/cap2geojson/convert.py:147 | deleting a character distributes over concatenation |
| `Text.RemoveBetween` | src/cap2geojson/convert.py:147 | deleting the one `c` between two strings without it concatenates them |
| `Text.WordLength` | src/cap2geojson/convert.py:147 | the length of the first word: no whitespace before it, whitespace at it (or the end) |
| `Text.Words` | src/cap2geojson/convert.py:147 | `str.split()`: every word is non-empty and free of whitespace |
| `Text.WordsAtSpace` | src/cap2geojson/convert.py:147 | `str.split()`: a whitespace character separates the words before it from those after it |
| `Text.WordsOfSpaces` | src/cap2geojson/convert.py:147 | `str.split()`: a text of whitespace only has no words |
| `Text.UnspacedRemoveSpace` | src/cap2geojson/convert.py:147 | deleting a whitespace character, such as the newline, leaves the non-whitespace characters as they were |
| `Text.WordsCoverText` | src/cap2geojson/convert.py:147 | the words, concatenated, are exactly the non-whitespace characters of the text, in order |
| `Text.WordsJoin` | src/cap2geojson/convert.py:147 | `" ".join(words).split()` gives back the words when they are non-empty and free of whitespace |
| `CapAlert.Get` | src/cap2geojson/convert.py:23-43 | `dict.get`: a value exactly when the key is present, and then the mapped value |
| `Properties.Descriptions` | src/cap2geojson/convert.py:59 | the list comprehension over the areas: succeeds exactly when every area has a description, giving them in order; otherwise KeyError('areaDesc') |
| `Properties.GetAreaDesc` | src/cap2geojson/convert.py:47-59 | one area: its description or KeyError; a list: succeeds exactly when every area has one, otherwise KeyError('areaDesc'); on success the first description followed by every later one after ", " (the empty list gives ""); None: TypeError |
| `Properties.AreaDescIsJoin` | src/cap2geojson/convert.py:59 | a list of described areas gives its descriptions joined with ", " |
| `Properties.AreaDescPieces` | src/cap2geojson/convert.py:59 | descriptions without commas are recovered, in order, by splitting the joined description on ',' |
| `Properties.AreaDescTwoAreas` | src/cap2geojson/convert.py:59 | two areas described "A" and "B" give "A, B" |
| `Properties.GetProperties` | src/cap2geojson/convert.py:11-44 | KeyError('info') without `info`; otherwise fails exactly when the area description does, with its error; on success the 21 keys in order, the alert and info values copied with `get`, the area description last |
| `Properties.Entries` | src/cap2geojson/convert.py:22-41 | one entry per key, in order: the key with its value in the dict, or null exactly when the key is missing |
| `Properties.AsMapKeys` | src/cap2geojson/convert.py:22-44 | a dict literal's keys are exactly the keys listed |
| `Properties.AsMapValues` | src/cap2geojson/convert.py:22-44 | with distinct keys, each key of a dict literal maps to its own entry's value |
| `Properties.PropertyKeysDistinct` | src/cap2geojson/convert.py:22-44 | the 21 property keys are pairwise different |
| `Properties.PropertiesAsMapping` | src/cap2geojson/convert.py:11-44 | read as a dict, the properties have exactly the 21 keys, each alert and info key mapped to the field or null, `areaDesc` to the description |
| `Winding.SignedArea` | src/cap2geojson/convert.py:111-120 | half of the chain sum over consecutive vertices plus the term closing the last vertex onto the first; 0 for an empty ring |
| `Winding.SignedAreaRotate` | src/cap2geojson/convert.py:111-120 | the signed area does not depend on which vertex the ring starts at |
| `Winding.Reverse` | src/cap2geojson/convert.py:123 | `list.reverse()`: same length, element i is the input's element n - 1 - i |
| `Winding.ComputeSignedArea` | src/cap2geojson/convert.py:111-120 | the `signed_area` loop: ValueError exactly when some position is not a pair, otherwise the signed area |
| `Winding.ReverseInPlace` | src/cap2geojson/convert.py:123 | `list.reverse()`: the array holds its old contents in reverse order |
| `Winding.EnsureCounterClockwise` | src/cap2geojson/convert.py:99-124 | reverses the caller's array in place exactly as `CounterClockwise` prescribes and returns that same array; on ValueError the array is untouched |
| `Winding.CounterClockwise` | src/cap2geojson/convert.py:99-124 | ValueError exactly when some position is not a pair; otherwise the ring or its reverse, with non-negative signed area equal to the absolute value of the input's, and the ring itself when already non-negative |
| `Winding.ShoelaceSplit` | src/cap2geojson/convert.py:117-119 | the wrap-around sum is the open chain sum plus the closing term |
| `Winding.ReverseNegatesArea` | src/cap2geojson/convert.py:122-123 | reversing a ring negates its signed area |
| `Winding.ReversePermutes` | src/cap2geojson/convert.py:123 | reversal keeps the multiset of positions |
| `Winding.CounterClockwiseIdempotent` | src/cap2geojson/convert.py:99-124 | normalising twice is normalising once |
| `Winding.CounterClockwisePermutes` | src/cap2geojson/convert.py:99-124 | the result has the same positions, each as often |
| `Winding.CounterClockwiseKeepsClosed` | src/cap2geojson/convert.py:99-124 | a closed ring stays closed |
| `Winding.ClockwiseSquareIsReversed` | src/cap2geojson/convert.py:122-123 | the clockwise unit square at (-1, 51) is reversed into counter-clockwise order |
| `Circle.CircleRing` | src/cap2geojson/convert.py:90-95 | IndexError exactly when n <= 0; otherwise n + 1 pairs, the last equal to the first |
| `Circle.GetAllCircleCoords` | src/cap2geojson/convert.py:62-96 | the two loops and the closing append: IndexError exactly when n <= 0, otherwise n + 1 pairs, point i at angle i/n * tau, the last equal to the first |
| `AreaParsing.ParseNumbers` | src/cap2geojson/convert.py:141 | `map(float, pieces)`: succeeds exactly when every piece parses, giving the numbers in order; otherwise ValueError |
| `AreaParsing.ParseToken` | src/cap2geojson/convert.py:148 | one token: succeeds exactly when every comma-separated field parses, else ValueError; one number per field, so one more than the commas |
| `AreaParsing.PolygonTokens` | src/cap2geojson/convert.py:147 | the tokens are non-empty and free of whitespace, and together they are exactly the polygon string's non-whitespace characters, in order |
| `AreaParsing.ParseTokens` | src/cap2geojson/convert.py:148 | the comprehension over tokens: succeeds exactly when every token parses, one position per token in order |
| `AreaParsing.ParsedToken` | src/cap2geojson/convert.py:148 | a token parses to a pair exactly when it is two comma-separated numbers, and then to those numbers |
| `AreaParsing.TokensInOrder` | src/cap2geojson/convert.py:147-149 | the tokens parse to pairs exactly when every token is well formed, and then to the tokens' positions in order |
| `AreaParsing.PolygonBranch` | src/cap2geojson/convert.py:145-149 | succeeds exactly when every token is two numbers, else ValueError; the ring is the tokens' positions in order when their signed area is non-negative and reversed when it is negative; all pairs, with non-negative signed area |
| `AreaParsing.WellFormedCircle` | src/cap2geojson/convert.py:139-141 | a circle is accepted exactly when it has one space, one comma before that space, and three fields that parse |
| `AreaParsing.CircleBranch` | src/cap2geojson/convert.py:137-143 | succeeds exactly when the string is "x,y r" with three numbers, else ValueError; then the 100-point ring around (x, y) of radius r, closed |
| `AreaParsing.PolygonCoordinates` | src/cap2geojson/convert.py:127-151 | a circle takes precedence and gives the circle branch (success exactly when it is "x,y r", a closed 101-point ring); otherwise a polygon gives the polygon branch (success exactly when every token is two numbers, a ring of non-negative area); neither gives the empty ring; only ValueError; all pairs |
| `Circle.CircleRingShape` | src/cap2geojson/convert.py:90-95 | for n > 0 points, n + 1 positions at the prescribed angles, the last repeating the first |
| `AreaParsing.CircleWinsOverPolygon` | src/cap2geojson/convert.py:137-143 | when a circle is present the polygon string is ignored |
| `AreaParsing.PolygonRoundTrip` | src/cap2geojson/convert.py:145-149 | a ring of pairs whose every coordinate prints back to itself without comma or whitespace, written as a CAP polygon string, reads back as that ring, winding-normalised |
| `AreaParsing.CircleRoundTrip` | src/cap2geojson/convert.py:137-143 | "x,y r" written from three numbers that each print back to themselves without comma or whitespace reads back as the 100-point ring around (x, y) of radius r |
| `AreaParsing.ParseFormattedPair` | src/cap2geojson/convert.py:141 | "a,b" from two numbers that print back to themselves without comma or whitespace splits into the two and parses back to [a, b] |
| `AreaParsing.NewlineIsNotASeparator` | src/cap2geojson/convert.py:147 | two comma-holding tokens separated only by a newline become one token, and the polygon is a ValueError |
| `AreaParsing.NewlineGluesPairs` | src/cap2geojson/convert.py:147 | "1,2" newline "3,4" is the single token "1,23,4" and is rejected |
| `AreaParsing.GluedTokenRejected` | src/cap2geojson/convert.py:148 | two comma-holding tokens glued together are not one "x,y" token |
| `Namespace.WordRun` | src/cap2geojson/convert.py:187 | greedy `\w+`: the longest run of word characters, stopped by a non-word character or the end |
| `Namespace.MatchAt` | src/cap2geojson/convert.py:187 | a match is `<`, an optional `/`, `cap:` and a non-empty maximal run of word characters |
| `Namespace.StripCapPrefix` | src/cap2geojson/convert.py:187 | the substitution never lengthens the text; `StripKeepsUntagged`, `StripOpenTag` and `StripCloseTag` fix its output on every text |
| `Namespace.StripUnchangedIff` | src/cap2geojson/convert.py:176-187 | the text is unchanged exactly when no position starts a prefixed tag |
| `Namespace.StripShortens` | src/cap2geojson/convert.py:187 | a prefixed tag anywhere makes the text shorter |
| `Namespace.StripOpenTag` | src/cap2geojson/convert.py:176-187 | `<cap:name` becomes `<name`, scanning resuming after the name |
| `Namespace.StripCloseTag` | src/cap2geojson/convert.py:176-187 | `</cap:name` becomes `</name`, scanning resuming after the name |
| `Namespace.StripPlainPrefix` | src/cap2geojson/convert.py:187 | text without '<' passes through unchanged |
| `Namespace.StripUnmatched` | src/cap2geojson/convert.py:187 | where no match starts, the character is copied and the scan moves on by one character |
| `Namespace.StripKeepsUntagged` | src/cap2geojson/convert.py:187 | characters at which no prefixed tag starts are copied unchanged, whatever follows them, a '<' included |
| `Namespace.StripKeepsDeclaration` | src/cap2geojson/convert.py:176-187 | an XML declaration `<?xml ...?>` is kept as it is, and the substitution goes on after it |
| `Namespace.StripElement` | src/cap2geojson/convert.py:176-187 | `<cap:name>text</cap:name>` becomes `<name>text</name>` when the text holds no tag |
| `Namespace.StripNotIdempotent` | src/cap2geojson/convert.py:187 | one pass over `<cap:cap:x` leaves `<cap:x`, a second pass `<x` |
| `GeoJson.TypeName` | src/cap2geojson/convert.py:167-171 | "Polygon" exactly for a Polygon, "MultiPolygon" exactly for a MultiPolygon |
| `GeoJson.RegionPolygons` | src/cap2geojson/convert.py:168 | succeeds exactly when every area does; one polygon `[ring]` per area, in order |
| `GeoJson.GetGeometry` | src/cap2geojson/convert.py:154-173 | a Polygon exactly for one area, holding its ring; a MultiPolygon for a list, one `[ring]` per area in order; fails, with ValueError, exactly when some area does |
| `GeoJson.GeometryIsPairs` | src/cap2geojson/convert.py:154-173 | every position of the geometry is a pair |
| `GeoJson.OneAreaList` | src/cap2geojson/convert.py:165-173 | a list of one area gives a MultiPolygon of that area's Polygon rings |
| `GeoJson.AlertCollection` | src/cap2geojson/convert.py:202-215 | KeyError('info') without `info`, TypeError without `area`, the properties error first, then the geometry error; succeeds exactly when both do, with one Feature holding the properties and the geometry |
| `GeoJson.ToGeoJson` | src/cap2geojson/convert.py:190-215 | the parser sees the prefix-stripped text; a parse failure or a missing `alert` are errors; otherwise exactly the alert's collection, its errors included |
| `GeoJson.UnprefixedTextIsParsedAsIs` | src/cap2geojson/convert.py:199-202 | text with no prefixed tag reaches the parser unchanged |
| `GeoJson.CollectionShape` | src/cap2geojson/convert.py:203-212 | the feature carries the 21 property keys in order, a Polygon exactly for one area, and only pairs |

## Left out

- XML parsing (`xmltodict.parse`) is a parameter. Attributes, repeated elements (several `<info>` blocks or several polygons in one area, which the parser turns into lists) and empty elements (which it turns into None) are not modelled. Field values are strings, and a shape is present or absent.
- A `circle` or `polygon` element that is present but empty is not modelled. Its None value makes the converter raise AttributeError.
- `json.dumps`: the model returns the FeatureCollection value, not its JSON text with four-space indentation.
- The "type" members "Feature" and "FeatureCollection" are implied by the datatypes rather than stored as strings.
- Floating point: coordinates, areas and angles are reals. Rounding, NaN, infinities and the inexactness of `i / n * tau` are not modelled.
- `float()` is a parameter, so the strings it accepts are not modelled.
- The circle point at an angle (cosine, sine and rounding to five decimals) is a parameter. The radius is used exactly as given, with no unit conversion.
- Circle.GetAllCircleCoords: does not prove that the approximated circle winds counter-clockwise, because the trigonometry is a parameter.
- The regular-expression class `\w` is a parameter.
- Logging and the command-line interface (`cli.py`) are not part of this model.
