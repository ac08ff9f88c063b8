/**
 * Positions and the distance arithmetic of the map screen. The great-circle
 * distance of the `haversine` package is abstract here: any function of two
 * positions that is never negative.
 */
module Geo {

  /** A `{latitude, longitude}` reading of the location provider. */
  datatype GeoPoint = GeoPoint(latitude: real, longitude: real)

  /** The `prevLatLng` state cell: the empty string `""` until the first reading is stored. */
  datatype LatLng = Unset | At(point: GeoPoint)

  /** A JavaScript number as far as `||` cares: a finite value or `NaN`. */
  datatype JsNumber = Num(value: real) | NaN

  /** The great-circle distance between two positions. */
  type Haversine = h: (GeoPoint, GeoPoint) -> real | forall a, b :: 0.0 <= h(a, b)
    witness (a: GeoPoint, b: GeoPoint) => 0.0

  /**
   * `haversine(prevLatLng, newLatLng)`: with `""` as its first argument the
   * package reads `undefined` coordinates and its arithmetic yields `NaN`.
   */
  function HaversineCall(h: Haversine, from: LatLng, to: GeoPoint): (r: JsNumber)
    ensures r.NaN? <==> from.Unset?
  {
    match from
    case Unset => NaN
    case At(p) => Num(h(p, to))
  }

  /** JavaScript truthiness of a number: neither `0` nor `NaN`. */
  predicate Truthy(x: JsNumber) {
    x.Num? && x.value != 0.0
  }

  /** `calcDistance`: `haversine(prevLatLng, newLatLng) || 0`. */
  function CalcDistance(h: Haversine, prev: LatLng, next: GeoPoint): (d: real)
    ensures 0.0 <= d
    ensures prev.Unset? ==> d == 0.0
    ensures prev.At? ==> d == h(prev.point, next)
  {
    var r := HaversineCall(h, prev, next);
    if Truthy(r) then r.value else 0.0
  }

  /** The last point of a route, or `Unset` for the empty route. */
  function LastPoint(route: seq<GeoPoint>): (p: LatLng)
    ensures p.Unset? <==> route == []
  {
    if route == [] then Unset else At(route[|route| - 1])
  }

  /**
   * The distance accumulated along a route when each reading adds
   * `calcDistance` from the reading before it; the first adds nothing.
   */
  function PathLength(h: Haversine, route: seq<GeoPoint>): real
  {
    if route == [] then 0.0
    else
      var init := route[..|route| - 1];
      PathLength(h, init) + CalcDistance(h, LastPoint(init), route[|route| - 1])
  }

  /** A reference definition: the sum of `h` over consecutive pairs, from the front. */
  function PairwiseSum(h: Haversine, route: seq<GeoPoint>): real
  {
    if |route| < 2 then 0.0 else h(route[0], route[1]) + PairwiseSum(h, route[1..])
  }

  /** Accumulating reading by reading gives the sum over consecutive pairs. */
  lemma {:induction false} PathLengthIsPairwiseSum(h: Haversine, route: seq<GeoPoint>)
    ensures PathLength(h, route) == PairwiseSum(h, route)
  {
    if |route| >= 2 {
      var init := route[..|route| - 1];
      PathLengthIsPairwiseSum(h, init);
      PairwiseSumSnoc(h, init, route[|route| - 1]);
      assert init + [route[|route| - 1]] == route;
    } else if |route| == 1 {
      assert route[..0] == [];
    }
  }

  lemma {:induction false} PairwiseSumSnoc(h: Haversine, s: seq<GeoPoint>, p: GeoPoint)
    requires s != []
    ensures PairwiseSum(h, s + [p]) == PairwiseSum(h, s) + h(s[|s| - 1], p)
  {
    if |s| >= 2 {
      PairwiseSumSnoc(h, s[1..], p);
      assert (s + [p])[1..] == s[1..] + [p];
    }
  }

  /** The accumulated distance is never negative. */
  lemma {:induction false} PathLengthNonNegative(h: Haversine, route: seq<GeoPoint>)
    ensures 0.0 <= PathLength(h, route)
  {
    if route != [] {
      PathLengthNonNegative(h, route[..|route| - 1]);
    }
  }

  /** A longer route never has a shorter accumulated distance than its prefixes. */
  lemma {:induction false} PathLengthPrefix(h: Haversine, route: seq<GeoPoint>, k: nat)
    requires k <= |route|
    ensures PathLength(h, route[..k]) <= PathLength(h, route)
  {
    if k < |route| {
      var init := route[..|route| - 1];
      PathLengthPrefix(h, init, k);
      assert init[..k] == route[..k];
    } else {
      assert route[..k] == route;
    }
  }

  /** Three readings in a row accumulate the two hops between them. */
  lemma PathLengthThree(h: Haversine, p1: GeoPoint, p2: GeoPoint, p3: GeoPoint)
    ensures PathLength(h, [p1, p2, p3]) == h(p1, p2) + h(p2, p3)
  {
    PathLengthIsPairwiseSum(h, [p1, p2, p3]);
    assert [p1, p2, p3][1..] == [p2, p3];
    assert [p2, p3][1..] == [p3];
    assert PairwiseSum(h, [p2, p3]) == h(p2, p3) + PairwiseSum(h, [p3]);
  }
}
