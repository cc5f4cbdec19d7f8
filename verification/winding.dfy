/**
 * Winding normalisation of polygon rings. GeoJSON (section 3.1.6 of RFC
 * 7946) wants exterior rings counter-clockwise; the converter computes the
 * shoelace signed area of a ring, with the last vertex paired with the
 * first, and reverses the ring in place when that area is negative.
 */
module Winding {
  import opened Wrappers
  import opened CapAlert

  /**
   * The shoelace term of two consecutive vertices, x1 * y2 - x2 * y1.
   * Positions that are not pairs contribute nothing: the converter rejects
   * such a ring before it uses the sum.
   */
  function Cross(p: Position, q: Position): real {
    if |p| == 2 && |q| == 2 then p[0] * q[1] - q[0] * p[1] else 0.0
  }

  /**
   * The first `k` terms of the shoelace sum: vertex i paired with vertex
   * (i + 1) mod n, which is the next vertex, or the first for the last one.
   */
  function ShoelacePrefix(ring: seq<Position>, k: nat): real
    requires k <= |ring|
  {
    if k == 0 then 0.0
    else ShoelacePrefix(ring, k - 1) + Cross(ring[k - 1], if k == |ring| then ring[0] else ring[k])
  }

  /** Half the shoelace sum: positive for a counter-clockwise ring, negative for a clockwise one. */
  function SignedArea(ring: seq<Position>): (area: real)
    ensures ring == [] ==> area == 0.0
    ensures ring != [] ==> area == (Chain(ring) + Cross(ring[|ring| - 1], ring[0])) / 2.0
  {
    if ring == [] then 0.0
    else
      ShoelaceSplit(ring);
      ShoelacePrefix(ring, |ring|) / 2.0
  }

  /** The elements of `s` in the opposite order, as Python's `list.reverse()` leaves them. */
  function Reverse<T>(s: seq<T>): (r: seq<T>)
    ensures |r| == |s|
    ensures forall i :: 0 <= i < |s| ==> r[i] == s[|s| - 1 - i]
  {
    if s == [] then [] else Reverse(s[1..]) + [s[0]]
  }

  function Abs(x: real): real {
    if x < 0.0 then -x else x
  }

  /**
   * The ring `ensure_counter_clockwise` leaves: ValueError unless every
   * position is a pair; otherwise the ring reversed exactly when its signed
   * area is negative, so that a degenerate (zero-area) ring is kept as it is.
   */
  function CounterClockwise(ring: seq<Position>): (r: Result<seq<Position>, Error>)
    ensures r.Failure? <==> !AllPairs(ring)
    ensures r.Failure? ==> r.error == ValueError
    ensures r.Success? ==> r.value == ring || r.value == Reverse(ring)
    ensures r.Success? ==> SignedArea(r.value) >= 0.0
    ensures r.Success? ==> SignedArea(r.value) == Abs(SignedArea(ring))
    ensures r.Success? && SignedArea(ring) >= 0.0 ==> r.value == ring
  {
    if !AllPairs(ring) then Failure(ValueError)
    else if SignedArea(ring) < 0.0 then
      ReverseNegatesArea(ring);
      Success(Reverse(ring))
    else Success(ring)
  }

  // ---------------------------------------------------------------------
  // Reversal negates the signed area

  /** The shoelace sum of an open chain: consecutive vertices only, without the closing term. */
  function Chain(s: seq<Position>): real {
    if |s| < 2 then 0.0 else Chain(s[..|s| - 1]) + Cross(s[|s| - 2], s[|s| - 1])
  }

  /** The chain sum unrolled from the front. */
  lemma {:induction false} ChainFront(s: seq<Position>)
    requires |s| >= 2
    ensures Chain(s) == Cross(s[0], s[1]) + Chain(s[1..])
    decreases |s|
  {
    var n := |s|;
    if n == 2 {
      assert s[..1][..0] == [] && |s[1..]| == 1;
    } else {
      var init := s[..n - 1];
      ChainFront(init);
      assert init[1..] == s[1..][..n - 2];
    }
  }

  /** Walking a chain backwards negates its sum, term by term. */
  lemma {:induction false} ChainReverse(s: seq<Position>)
    ensures Chain(Reverse(s)) == -Chain(s)
    decreases |s|
  {
    var n := |s|;
    if n >= 2 {
      var r := Reverse(s);
      assert r[..n - 1] == Reverse(s[1..]);
      ChainReverse(s[1..]);
      ChainFront(s);
      assert r[n - 2] == s[1] && r[n - 1] == s[0];
    }
  }

  /** The first k terms of the wrap-around sum are the chain sum of the first k + 1 vertices. */
  lemma {:induction false} PrefixIsChain(ring: seq<Position>, k: nat)
    requires k < |ring|
    ensures ShoelacePrefix(ring, k) == Chain(ring[..k + 1])
    decreases k
  {
    if k > 0 {
      PrefixIsChain(ring, k - 1);
      var c := ring[..k + 1];
      assert c[..k] == ring[..k];
      assert Chain(c) == Chain(c[..k]) + Cross(c[k - 1], c[k]);
    }
  }

  /** The shoelace sum is the chain sum plus the term closing the last vertex onto the first. */
  lemma ShoelaceSplit(ring: seq<Position>)
    requires |ring| >= 1
    ensures ShoelacePrefix(ring, |ring|) == Chain(ring) + Cross(ring[|ring| - 1], ring[0])
  {
    var n := |ring|;
    PrefixIsChain(ring, n - 1);
    assert ring[..n] == ring;
  }

  /** Reversing a ring negates its signed area. */
  lemma ReverseNegatesArea(ring: seq<Position>)
    ensures SignedArea(Reverse(ring)) == -SignedArea(ring)
  {
    var n := |ring|;
    if n >= 1 {
      var r := Reverse(ring);
      ShoelaceSplit(ring);
      ShoelaceSplit(r);
      ChainReverse(ring);
      assert r[n - 1] == ring[0] && r[0] == ring[n - 1];
    }
  }

  /** The signed area does not depend on which vertex the ring starts at. */
  lemma SignedAreaRotate(ring: seq<Position>)
    requires |ring| >= 1
    ensures SignedArea(ring[1..] + [ring[0]]) == SignedArea(ring)
  {
    var n := |ring|;
    var rotated := ring[1..] + [ring[0]];
    if n >= 2 {
      ChainFront(ring);
      assert rotated[..n - 1] == ring[1..];
      assert rotated[n - 2] == ring[n - 1] && rotated[n - 1] == ring[0] && rotated[0] == ring[1];
      assert Chain(rotated) == Chain(ring[1..]) + Cross(ring[n - 1], ring[0]);
    } else {
      assert rotated == ring;
    }
  }

  /** Reversal keeps the multiset of positions. */
  lemma {:induction false} ReversePermutes<T>(s: seq<T>)
    ensures multiset(Reverse(s)) == multiset(s)
    decreases |s|
  {
    if s != [] {
      ReversePermutes(s[1..]);
      assert Reverse(s) == Reverse(s[1..]) + [s[0]];
      assert s == [s[0]] + s[1..];
    }
  }

  // ---------------------------------------------------------------------
  // Properties of the normalisation

  /** Normalising twice is normalising once. */
  lemma CounterClockwiseIdempotent(ring: seq<Position>)
    requires CounterClockwise(ring).Success?
    ensures CounterClockwise(CounterClockwise(ring).value) == CounterClockwise(ring)
  {
  }

  /** The result has the same positions, each as often, and the same length. */
  lemma CounterClockwisePermutes(ring: seq<Position>)
    requires CounterClockwise(ring).Success?
    ensures |CounterClockwise(ring).value| == |ring|
    ensures multiset(CounterClockwise(ring).value) == multiset(ring)
  {
    ReversePermutes(ring);
  }

  /** A closed ring, whose last position repeats its first, stays closed. */
  lemma CounterClockwiseKeepsClosed(ring: seq<Position>)
    requires CounterClockwise(ring).Success?
    requires |ring| >= 1 && ring[0] == ring[|ring| - 1]
    ensures |CounterClockwise(ring).value| == |ring|
    ensures CounterClockwise(ring).value[0] == CounterClockwise(ring).value[|ring| - 1]
  {
  }

  /**
   * The clockwise square (-1, 51), (-1, 52), (0, 52), (0, 51), (-1, 51)
   * is turned into the counter-clockwise (-1, 51), (0, 51), (0, 52), (-1, 52), (-1, 51).
   */
  lemma ClockwiseSquareIsReversed()
    ensures CounterClockwise([[-1.0, 51.0], [-1.0, 52.0], [0.0, 52.0], [0.0, 51.0], [-1.0, 51.0]])
         == Success([[-1.0, 51.0], [0.0, 51.0], [0.0, 52.0], [-1.0, 52.0], [-1.0, 51.0]])
  {
    var ring: seq<Position> := [[-1.0, 51.0], [-1.0, 52.0], [0.0, 52.0], [0.0, 51.0], [-1.0, 51.0]];
    assert AllPairs(ring);
    assert ShoelacePrefix(ring, 1) == -1.0;
    assert ShoelacePrefix(ring, 2) == -53.0;
    assert ShoelacePrefix(ring, 3) == -53.0;
    assert ShoelacePrefix(ring, 4) == -2.0;
    assert ShoelacePrefix(ring, 5) == -2.0;
    assert SignedArea(ring) == -1.0;
    assert Reverse(ring) == [[-1.0, 51.0], [0.0, 51.0], [0.0, 52.0], [-1.0, 52.0], [-1.0, 51.0]];
  }

  // ---------------------------------------------------------------------
  // The in-place implementation

  /**
   * The nested `signed_area` loop: ValueError at the first position that is
   * not a pair, otherwise half the accumulated wrap-around sum.
   */
  method ComputeSignedArea(coords: array<Position>) returns (r: Result<real, Error>)
    ensures r.Failure? <==> !AllPairs(coords[..])
    ensures r.Failure? ==> r.error == ValueError
    ensures r.Success? ==> r.value == SignedArea(coords[..])
  {
    var n := coords.Length;
    var area := 0.0;
    for i := 0 to n
      invariant forall j :: 0 <= j < i ==> |coords[j]| == 2
      invariant area == ShoelacePrefix(coords[..], i)
    {
      var p := coords[i];
      NextIndex(i, n);
      var q := coords[(i + 1) % n];
      if |p| != 2 || |q| != 2 {
        return Failure(ValueError);
      }
      area := area + (p[0] * q[1] - q[0] * p[1]);
    }
    return Success(area / 2.0);
  }

  /** The index after `i` among `n`, wrapping round to 0 after the last. */
  lemma NextIndex(i: int, n: int)
    requires 0 <= i < n
    ensures (i + 1) % n == if i + 1 == n then 0 else i + 1
  {
  }

  /** Python's `list.reverse()`: swaps from both ends towards the middle. */
  method ReverseInPlace(a: array<Position>)
    modifies a
    ensures a[..] == Reverse(old(a[..]))
  {
    var n := a.Length;
    var i := 0;
    while i < n / 2
      invariant 0 <= i <= n / 2
      invariant forall k :: 0 <= k < i ==> a[k] == old(a[n - 1 - k]) && a[n - 1 - k] == old(a[k])
      invariant forall k :: i <= k < n - i ==> a[k] == old(a[k])
    {
      a[i], a[n - 1 - i] := a[n - 1 - i], a[i];
      i := i + 1;
    }
  }

  /**
   * `ensure_counter_clockwise`: reverses the caller's list in place when its
   * signed area is negative and returns that same list; on a ValueError the
   * list is left untouched.
   */
  method EnsureCounterClockwise(coords: array<Position>) returns (r: Result<array<Position>, Error>)
    modifies coords
    ensures r.Success? <==> CounterClockwise(old(coords[..])).Success?
    ensures r.Success? ==> r.value == coords && coords[..] == CounterClockwise(old(coords[..])).value
    ensures r.Failure? ==> r.error == ValueError && coords[..] == old(coords[..])
  {
    var area := ComputeSignedArea(coords);
    if area.Failure? {
      return Failure(area.error);
    }
    if area.value < 0.0 {
      ReverseInPlace(coords);
    }
    return Success(coords);
  }
}
