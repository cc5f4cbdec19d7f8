/**
 * `get_polygon_coordinates`: the ring of one `<area>` block, from its
 * `circle` string ("x,y r") when it has one, else from its `polygon` string
 * (whitespace-separated "x,y" tokens), else empty. Number parsing is a
 * parameter.
 */
module AreaParsing {
  import opened Wrappers
  import opened Text
  import opened CapAlert
  import opened Winding
  import opened Circle

  /**
   * Python's `float(token)`: the number the token denotes, or None where
   * `float` raises ValueError. Not modelled: it is any such function.
   */
  type FloatParser = string -> Option<real>

  /** The number of points a CAP circle is approximated with. */
  const CirclePointCount: int := 100

  /** `list(map(float, pieces))`: every piece as a number, or ValueError. */
  function ParseNumbers(pieces: seq<string>, parse: FloatParser): (r: Result<seq<real>, Error>)
    ensures r.Success? <==> forall i :: 0 <= i < |pieces| ==> parse(pieces[i]).Some?
    ensures r.Failure? ==> r.error == ValueError
    ensures r.Success? ==> |r.value| == |pieces|
    ensures r.Success? ==> forall i :: 0 <= i < |pieces| ==> r.value[i] == parse(pieces[i]).value
  {
    if pieces == [] then Success([])
    else if parse(pieces[0]).None? then Failure(ValueError)
    else
      var rest :- ParseNumbers(pieces[1..], parse);
      Success([parse(pieces[0]).value] + rest)
  }

  /** `list(map(float, coord.split(",")))` for one polygon token. */
  function ParseToken(token: string, parse: FloatParser): (r: Result<Position, Error>)
    ensures r.Success? <==> forall piece :: piece in Split(token, ',') ==> parse(piece).Some?
    ensures r.Failure? ==> r.error == ValueError
    ensures r.Success? ==> |r.value| == Count(token, ',') + 1
  {
    ParseNumbers(Split(token, ','), parse)
  }

  /** The list comprehension over the polygon tokens: one position per token, in order. */
  function ParseTokens(tokens: seq<string>, parse: FloatParser): (r: Result<seq<Position>, Error>)
    ensures r.Success? <==> forall i :: 0 <= i < |tokens| ==> ParseToken(tokens[i], parse).Success?
    ensures r.Failure? ==> r.error == ValueError
    ensures r.Success? ==> |r.value| == |tokens|
    ensures r.Success? ==> forall i :: 0 <= i < |tokens| ==> r.value[i] == ParseToken(tokens[i], parse).value
  {
    if tokens == [] then Success([])
    else
      var first :- ParseToken(tokens[0], parse);
      var rest :- ParseTokens(tokens[1..], parse);
      Success([first] + rest)
  }

  /** The tokens of a polygon string: every newline deleted first, then split on whitespace. */
  function PolygonTokens(polygon: string): (tokens: seq<string>)
    ensures forall i :: 0 <= i < |tokens| ==> tokens[i] != "" && NoSpace(tokens[i])
    ensures Concat(tokens) == Unspaced(polygon)
  {
    var cleaned := Remove(polygon, '\n');
    assert IsSpace('\n');
    WordsCoverText(cleaned);
    UnspacedRemoveSpace(polygon, '\n');
    Words(cleaned)
  }

  /** A polygon token the converter accepts: exactly two comma-separated numbers. */
  predicate WellFormedToken(token: string, parse: FloatParser) {
    var pieces := Split(token, ',');
    |pieces| == 2 && parse(pieces[0]).Some? && parse(pieces[1]).Some?
  }

  /** The position of a well-formed token. */
  function TokenPosition(token: string, parse: FloatParser): Position
    requires WellFormedToken(token, parse)
  {
    var pieces := Split(token, ',');
    [parse(pieces[0]).value, parse(pieces[1]).value]
  }

  /** The positions of well-formed tokens, in order. */
  function TokenPositions(tokens: seq<string>, parse: FloatParser): seq<Position>
    requires forall i :: 0 <= i < |tokens| ==> WellFormedToken(tokens[i], parse)
  {
    seq(|tokens|, i requires 0 <= i < |tokens| => TokenPosition(tokens[i], parse))
  }

  /** A token parses to a pair exactly when it is well formed, and then to its position. */
  lemma ParsedToken(token: string, parse: FloatParser)
    ensures WellFormedToken(token, parse) ==> ParseToken(token, parse) == Success(TokenPosition(token, parse))
    ensures ParseToken(token, parse).Success? && |ParseToken(token, parse).value| == 2 ==> WellFormedToken(token, parse)
  {
    var pieces := Split(token, ',');
    var r := ParseNumbers(pieces, parse);
    if WellFormedToken(token, parse) {
      assert r.Success? && |r.value| == 2;
      assert r.value == [parse(pieces[0]).value, parse(pieces[1]).value];
    }
  }

  /**
   * The polygon branch: one position per token in document order, then
   * winding normalisation. A token that is not two numbers is a ValueError,
   * raised by `float` or by the signed-area computation.
   */
  function PolygonBranch(polygon: string, parse: FloatParser): (r: Result<seq<Position>, Error>)
    ensures var tokens := PolygonTokens(polygon);
      r.Success? <==> forall i :: 0 <= i < |tokens| ==> WellFormedToken(tokens[i], parse)
    ensures r.Failure? ==> r.error == ValueError
    ensures r.Success? ==> AllPairs(r.value) && SignedArea(r.value) >= 0.0
    ensures r.Success? ==>
      var positions := TokenPositions(PolygonTokens(polygon), parse);
      r.value == positions || r.value == Reverse(positions)
    ensures r.Success? ==>
      var positions := TokenPositions(PolygonTokens(polygon), parse);
      (SignedArea(positions) >= 0.0 ==> r.value == positions) &&
      (SignedArea(positions) < 0.0 ==> r.value == Reverse(positions))
  {
    var tokens := PolygonTokens(polygon);
    TokensInOrder(tokens, parse);
    var positions :- ParseTokens(tokens, parse);
    CounterClockwise(positions)
  }

  /**
   * The tokens parse, all to pairs, exactly when every token is well formed,
   * and then they give the tokens' positions in order.
   */
  lemma TokensInOrder(tokens: seq<string>, parse: FloatParser)
    ensures var r := ParseTokens(tokens, parse);
      r.Success? && AllPairs(r.value) <==> forall i :: 0 <= i < |tokens| ==> WellFormedToken(tokens[i], parse)
    ensures var r := ParseTokens(tokens, parse);
      r.Success? && AllPairs(r.value) ==> r.value == TokenPositions(tokens, parse)
  {
    var r := ParseTokens(tokens, parse);
    if r.Success? {
      if AllPairs(r.value) {
        PairsAreWellFormed(tokens, r.value, parse);
        WellFormedArePositions(tokens, r.value, parse);
      } else {
        var i :| 0 <= i < |r.value| && |r.value[i]| != 2;
        ParsedToken(tokens[i], parse);
      }
    } else {
      var i :| 0 <= i < |tokens| && ParseToken(tokens[i], parse).Failure?;
      ParsedToken(tokens[i], parse);
    }
  }

  /** Tokens that parse, all to pairs, are well formed. */
  lemma PairsAreWellFormed(tokens: seq<string>, positions: seq<Position>, parse: FloatParser)
    requires ParseTokens(tokens, parse) == Success(positions)
    requires AllPairs(positions)
    ensures forall i :: 0 <= i < |tokens| ==> WellFormedToken(tokens[i], parse)
  {
  }

  lemma {:induction false} WellFormedArePositions(tokens: seq<string>, positions: seq<Position>, parse: FloatParser)
    requires ParseTokens(tokens, parse) == Success(positions)
    requires forall i :: 0 <= i < |tokens| ==> WellFormedToken(tokens[i], parse)
    ensures positions == TokenPositions(tokens, parse)
    decreases |tokens|
  {
    if tokens != [] {
      var rest := tokens[1..];
      assert forall i :: 0 <= i < |rest| ==> WellFormedToken(rest[i], parse) by {
        forall i | 0 <= i < |rest| ensures WellFormedToken(rest[i], parse) {
          assert rest[i] == tokens[i + 1];
        }
      }
      ParsedToken(tokens[0], parse);
      WellFormedArePositions(rest, positions[1..], parse);
      assert TokenPositions(tokens, parse) == [TokenPosition(tokens[0], parse)] + TokenPositions(rest, parse);
    }
  }

  /** A circle string the converter accepts: "x,y r" with one space and one comma, all three numbers. */
  predicate WellFormedCircle(circle: string, parse: FloatParser): (b: bool)
    ensures b <==>
      && Count(circle, ' ') == 1
      && Count(Split(circle, ' ')[0], ',') == 1
      && parse(Split(circle, ' ')[1]).Some?
      && parse(Split(Split(circle, ' ')[0], ',')[0]).Some?
      && parse(Split(Split(circle, ' ')[0], ',')[1]).Some?
  {
    var parts := Split(circle, ' ');
    && |parts| == 2
    && parse(parts[1]).Some?
    && var centre := Split(parts[0], ',');
       |centre| == 2 && parse(centre[0]).Some? && parse(centre[1]).Some?
  }

  /**
   * The circle branch: the string split on a single space into centre and
   * radius, the centre split on a comma into two numbers, then the 100-point
   * approximation. Any other shape is a ValueError.
   */
  function CircleBranch(circle: string, parse: FloatParser, point: PointOnCircle): (r: Result<seq<Position>, Error>)
    ensures r.Success? <==> WellFormedCircle(circle, parse)
    ensures r.Failure? ==> r.error == ValueError
    ensures r.Success? ==>
      var parts := Split(circle, ' ');
      var centre := Split(parts[0], ',');
      r == CircleRing(parse(centre[0]).value, parse(centre[1]).value, parse(parts[1]).value, CirclePointCount, point)
    ensures r.Success? ==>
      |r.value| == CirclePointCount + 1 && r.value[CirclePointCount] == r.value[0] && AllPairs(r.value)
  {
    var parts := Split(circle, ' ');
    if |parts| != 2 then Failure(ValueError)
    else
      var radius := parse(parts[1]);
      if radius.None? then Failure(ValueError)
      else
        var centre := ParseNumbers(Split(parts[0], ','), parse);
        if centre.Failure? || |centre.value| != 2 then Failure(ValueError)
        else CircleRing(centre.value[0], centre.value[1], radius.value, CirclePointCount, point)
  }

  /**
   * `get_polygon_coordinates`: a `circle` takes precedence over a `polygon`;
   * with neither the ring is empty.
   */
  function PolygonCoordinates(area: Region, parse: FloatParser, point: PointOnCircle): (r: Result<seq<Position>, Error>)
    ensures r.Failure? ==> r.error == ValueError
    ensures r.Success? ==> AllPairs(r.value)
    ensures area.circle.Some? && r.Success? ==>
      |r.value| == CirclePointCount + 1 && r.value[CirclePointCount] == r.value[0]
    ensures area.circle.None? && area.polygon.Some? && r.Success? ==> SignedArea(r.value) >= 0.0
    ensures area.circle.None? && area.polygon.None? ==> r == Success([])
    ensures area.circle.Some? ==> r == CircleBranch(area.circle.value, parse, point)
    ensures area.circle.Some? ==> (r.Success? <==> WellFormedCircle(area.circle.value, parse))
    ensures area.circle.None? && area.polygon.Some? ==> r == PolygonBranch(area.polygon.value, parse)
    ensures area.circle.None? && area.polygon.Some? ==>
      var tokens := PolygonTokens(area.polygon.value);
      (r.Success? <==> forall i :: 0 <= i < |tokens| ==> WellFormedToken(tokens[i], parse))
  {
    if area.circle.Some? then CircleBranch(area.circle.value, parse, point)
    else if area.polygon.Some? then PolygonBranch(area.polygon.value, parse)
    else Success([])
  }

  // ---------------------------------------------------------------------
  // Properties

  /** A circle takes precedence: the `polygon` string, whatever it is, is ignored. */
  lemma CircleWinsOverPolygon(area: Region, polygon: Option<string>, parse: FloatParser, point: PointOnCircle)
    requires area.circle.Some?
    ensures PolygonCoordinates(area.(polygon := polygon), parse, point) == PolygonCoordinates(area, parse, point)
  {
  }

  /**
   * The number `v` is written as the converter expects: `show(v)` parses
   * back to `v` and holds neither a comma nor whitespace.
   */
  predicate PrintsNumber(show: real -> string, parse: FloatParser, v: real) {
    parse(show(v)) == Some(v) && ',' !in show(v) && NoSpace(show(v))
  }

  /** Every coordinate of the ring is written as the converter expects. */
  predicate PrintsRing(show: real -> string, parse: FloatParser, ring: seq<Position>) {
    forall i, j :: 0 <= i < |ring| && 0 <= j < |ring[i]| ==> PrintsNumber(show, parse, ring[i][j])
  }

  /** A position written as "x,y". */
  function FormatPosition(p: Position, show: real -> string): string
    requires |p| == 2
  {
    show(p[0]) + "," + show(p[1])
  }

  /** A ring written as a CAP polygon string: "x,y x,y ...". */
  function FormatPolygon(ring: seq<Position>, show: real -> string): string
    requires AllPairs(ring)
  {
    Join(seq(|ring|, i requires 0 <= i < |ring| => FormatPosition(ring[i], show)), " ")
  }

  /** Two numbers joined by a comma split back into those two numbers. */
  lemma ParseFormattedPair(a: real, b: real, show: real -> string, parse: FloatParser)
    requires PrintsNumber(show, parse, a) && PrintsNumber(show, parse, b)
    ensures Split(show(a) + "," + show(b), ',') == [show(a), show(b)]
    ensures ParseNumbers(Split(show(a) + "," + show(b), ','), parse) == Success([a, b])
  {
    SplitAtSeparator(show(a), show(b), ',');
    SplitWithoutSeparator(show(a), ',');
    SplitWithoutSeparator(show(b), ',');
    assert show(a) + "," + show(b) == show(a) + [','] + show(b);
    assert parse(show(a)) == Some(a) && parse(show(b)) == Some(b);
    var r := ParseNumbers([show(a), show(b)], parse);
    assert r.Success? && |r.value| == 2 && r.value[0] == a && r.value[1] == b;
    assert r.value == [a, b];
  }

  /** Words separated by single spaces hold no newline. */
  lemma {:induction false} NoNewlineInJoin(ws: seq<string>)
    requires forall i :: 0 <= i < |ws| ==> NoSpace(ws[i])
    ensures '\n' !in Join(ws, " ")
    decreases |ws|
  {
    if |ws| == 1 {
      assert IsSpace('\n');
    } else if |ws| >= 2 {
      NoNewlineInJoin(ws[1..]);
      assert IsSpace('\n');
      assert Join(ws, " ") == ws[0] + " " + Join(ws[1..], " ");
    }
  }

  /**
   * Round trip of the polygon branch: a ring of pairs written as a CAP
   * polygon string is read back as that ring, winding-normalised.
   */
  lemma PolygonRoundTrip(ring: seq<Position>, show: real -> string, parse: FloatParser)
    requires AllPairs(ring)
    requires PrintsRing(show, parse, ring)
    ensures PolygonBranch(FormatPolygon(ring, show), parse) == CounterClockwise(ring)
  {
    var tokens := seq(|ring|, i requires 0 <= i < |ring| => FormatPosition(ring[i], show));
    forall i | 0 <= i < |tokens|
      ensures tokens[i] != "" && NoSpace(tokens[i])
    {
      FormattedTokenIsWord(ring[i], show, parse);
    }
    var s := FormatPolygon(ring, show);
    NoNewlineInJoin(tokens);
    RemoveAbsent(s, '\n');
    WordsJoin(tokens);
    assert PolygonTokens(s) == tokens;
    ParseFormattedTokens(ring, tokens, show, parse);
  }

  /** A formatted position is one word: non-empty and without whitespace. */
  lemma FormattedTokenIsWord(p: Position, show: real -> string, parse: FloatParser)
    requires |p| == 2
    requires PrintsNumber(show, parse, p[0]) && PrintsNumber(show, parse, p[1])
    ensures FormatPosition(p, show) != "" && NoSpace(FormatPosition(p, show))
  {
    assert NoSpace(",") by {
      assert !IsSpace(',');
    }
    NoSpaceAppend(show(p[0]), ",");
    NoSpaceAppend(show(p[0]) + ",", show(p[1]));
  }

  /** The formatted positions parse back into the ring. */
  lemma ParseFormattedTokens(ring: seq<Position>, tokens: seq<string>, show: real -> string, parse: FloatParser)
    requires AllPairs(ring)
    requires PrintsRing(show, parse, ring)
    requires tokens == seq(|ring|, i requires 0 <= i < |ring| => FormatPosition(ring[i], show))
    ensures ParseTokens(tokens, parse) == Success(ring)
  {
    forall i | 0 <= i < |tokens|
      ensures ParseToken(tokens[i], parse) == Success(ring[i])
    {
      var a, b := ring[i][0], ring[i][1];
      ParseFormattedPair(a, b, show, parse);
      assert ring[i] == [a, b];
    }
    var r := ParseTokens(tokens, parse);
    assert r.Success? && |r.value| == |ring|;
    assert r.value == ring;
  }

  /**
   * Round trip of the circle branch: "x,y r" is read back as the 100-point
   * ring around (x, y) of radius r.
   */
  lemma CircleRoundTrip(x: real, y: real, radius: real, show: real -> string, parse: FloatParser, point: PointOnCircle)
    requires PrintsNumber(show, parse, x) && PrintsNumber(show, parse, y) && PrintsNumber(show, parse, radius)
    ensures CircleBranch(show(x) + "," + show(y) + " " + show(radius), parse, point)
         == CircleRing(x, y, radius, CirclePointCount, point)
  {
    var centre := show(x) + "," + show(y);
    var s := centre + " " + show(radius);
    FormattedTokenIsWord([x, y], show, parse);
    assert FormatPosition([x, y], show) == centre;
    SpaceNotIn(centre, ' ');
    SpaceNotIn(show(radius), ' ');
    assert s == centre + [' '] + show(radius);
    SplitAtSeparator(centre, show(radius), ' ');
    SplitWithoutSeparator(centre, ' ');
    SplitWithoutSeparator(show(radius), ' ');
    ParseFormattedPair(x, y, show, parse);
  }

  /** A string holding a comma splits on ',' into at least two pieces. */
  lemma CommaSplits(s: string)
    requires ',' in s
    ensures exists s1, s2 :: s == s1 + [','] + s2
  {
    var i :| 0 <= i < |s| && s[i] == ',';
    assert s == s[..i] + [','] + s[i + 1..];
  }

  /**
   * Deleting newlines before splitting glues together two tokens that only a
   * newline separates: `a` newline `b` is the single token `a + b`. When `a`
   * and `b` each hold a comma, as two "x,y" tokens do, the glued token has
   * at least three comma-separated pieces, so the polygon is rejected
   * whatever `float` accepts.
   */
  lemma NewlineIsNotASeparator(a: string, b: string, parse: FloatParser)
    requires NoSpace(a) && NoSpace(b)
    requires ',' in a && ',' in b
    ensures PolygonTokens(a + "\n" + b) == [a + b]
    ensures PolygonBranch(a + "\n" + b, parse) == Failure(ValueError)
  {
    NewlineDeleted(a, b);
    GluedTokenRejected(a, b, parse);
  }

  /** Deleting the newline between two words leaves them as one word. */
  lemma NewlineDeleted(a: string, b: string)
    requires NoSpace(a) && NoSpace(b)
    requires a + b != ""
    ensures PolygonTokens(a + "\n" + b) == [a + b]
  {
    SpaceNotIn(a, '\n');
    SpaceNotIn(b, '\n');
    RemoveBetween(a, b, '\n');
    NoSpaceAppend(a, b);
    WordsOfWord(a + b);
  }

  /** Two tokens that each hold a comma, glued together, are not one "x,y" token. */
  lemma GluedTokenRejected(a: string, b: string, parse: FloatParser)
    requires ',' in a && ',' in b
    ensures !WellFormedToken(a + b, parse)
  {
    CommaSplits(a);
    CommaSplits(b);
    var a1, a2 :| a == a1 + [','] + a2;
    var b1, b2 :| b == b1 + [','] + b2;
    var middle := a2 + b1;
    assert a + b == a1 + [','] + (middle + [','] + b2);
    SplitAtSeparator(a1, middle + [','] + b2, ',');
    SplitAtSeparator(middle, b2, ',');
  }

  /** "1,2" newline "3,4" is read as the single token "1,23,4" and rejected. */
  lemma NewlineGluesPairs(parse: FloatParser)
    ensures PolygonTokens("1,2\n3,4") == ["1,23,4"]
    ensures PolygonBranch("1,2\n3,4", parse) == Failure(ValueError)
  {
    var a, b := "1,2", "3,4";
    assert a[1] == ',' && b[1] == ',';
    assert "1,2\n3,4" == a + "\n" + b;
    assert a + b == "1,23,4";
    NewlineIsNotASeparator(a, b, parse);
  }
}
