/**
 * Approximation of a CAP circle by a closed ring: `n` points at equally
 * spaced angles, then the first point again. The point at a given angle
 * (cosine, sine and rounding to five decimals) is a parameter.
 */
module Circle {
  import opened Wrappers
  import opened CapAlert

  /** Python's `math.tau` (2 * pi), as the double the converter uses. */
  const Tau: real := 6.283185307179586

  /** The angle of the `i`-th of `n` points: `i / n * tau`. */
  function Theta(i: int, n: int): real
    requires n > 0
  {
    (i as real) / (n as real) * Tau
  }

  /**
   * `get_circle_coord(theta, x_centre, y_centre, radius)`: the rounded point
   * at angle theta on the circle. Its trigonometry and rounding are not
   * modelled; it is any function from those four numbers to a pair.
   */
  type PointOnCircle = (real, real, real, real) -> Pair

  /**
   * The ring `get_all_circle_coords` returns: IndexError when it is asked for
   * no points (`range(n)` is empty, so there is no first point to repeat).
   */
  function CircleRing(x: real, y: real, radius: real, n: int, point: PointOnCircle): (r: Result<seq<Position>, Error>)
    ensures r.Failure? <==> n <= 0
    ensures r.Failure? ==> r.error == IndexError
    ensures r.Success? ==> |r.value| == n + 1 && r.value[n] == r.value[0] && AllPairs(r.value)
  {
    if n <= 0 then Failure(IndexError)
    else
      var points := seq(n, i requires 0 <= i < n => point(Theta(i, n), x, y, radius));
      Success(points + [points[0]])
  }

  /** The shape of the approximated circle: n points at increasing angles, then the first again. */
  lemma CircleRingShape(x: real, y: real, radius: real, n: int, point: PointOnCircle)
    requires n > 0
    ensures CircleRing(x, y, radius, n, point).Success?
    ensures var ring := CircleRing(x, y, radius, n, point).value;
      |ring| == n + 1 && ring[n] == ring[0] &&
      forall i :: 0 <= i < n ==> ring[i] == point(Theta(i, n), x, y, radius)
  {
  }

  /**
   * `get_all_circle_coords`: builds the list of angles, maps each to its
   * point, and appends the first point to close the ring.
   */
  method GetAllCircleCoords(x: real, y: real, radius: real, n: int, point: PointOnCircle)
    returns (r: Result<seq<Position>, Error>)
    ensures r.Failure? <==> n <= 0
    ensures r.Failure? ==> r.error == IndexError
    ensures r.Success? ==> |r.value| == n + 1 && r.value[n] == r.value[0]
    ensures r.Success? ==> forall i :: 0 <= i < n ==> r.value[i] == point(Theta(i, n), x, y, radius)
    ensures r.Success? ==> AllPairs(r.value)
    ensures r == CircleRing(x, y, radius, n, point)
  {
    var count := if n < 0 then 0 else n;
    var thetas: seq<real> := [];
    var i := 0;
    while i < count
      invariant 0 <= i <= count
      invariant |thetas| == i
      invariant forall j :: 0 <= j < i ==> thetas[j] == Theta(j, n)
    {
      thetas := thetas + [Theta(i, n)];
      i := i + 1;
    }
    var coords: seq<Position> := [];
    i := 0;
    while i < |thetas|
      invariant 0 <= i <= |thetas|
      invariant |coords| == i
      invariant forall j :: 0 <= j < i ==> coords[j] == point(thetas[j], x, y, radius)
    {
      coords := coords + [point(thetas[i], x, y, radius)];
      i := i + 1;
    }
    if |coords| == 0 {
      return Failure(IndexError);
    }
    assert coords == seq(n, j requires 0 <= j < n => point(Theta(j, n), x, y, radius));
    coords := coords + [coords[0]];
    return Success(coords);
  }
}
