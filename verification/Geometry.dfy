/** Positions and lengths: what the graph code takes from get_distance, and what is assumed of it. */
module Geometry {
  import opened RoadGraph

  // get_distance, make_coordinate_string and the geohash encoder, as parameters.
  datatype Geometry = Geometry(
    distance: (Point, Point) -> real,
    coordinateString: Point -> string,
    geoHash: Point -> bv64)
  {
    function Between(x: Vertex, y: Vertex): real { distance(x.pos, y.pos) }
  }

  // The point at 1/a of the way from p to q.
  function Towards(p: Point, q: Point, a: int): Point
    requires a != 0
  {
    Point(p.lat + (q.lat - p.lat) / a as real, p.lng + (q.lng - p.lng) / a as real)
  }

  // Lengths are symmetric and proportional along a segment.
  ghost predicate Proportional(distance: (Point, Point) -> real) {
    && (forall p, q :: distance(p, q) == distance(q, p))
    && (forall p, q, a: int {:trigger Towards(p, q, a)} :: a >= 1 ==>
          && distance(p, Towards(p, q, a)) == distance(p, q) / a as real
          && distance(Towards(p, q, a), q) == distance(p, q) - distance(p, q) / a as real)
  }

  // Some length that satisfies the assumption on get_distance.
  function Manhattan(p: Point, q: Point): real {
    Abs(p.lat - q.lat) + Abs(p.lng - q.lng)
  }

  function Abs(x: real): real { if x < 0.0 then -x else x }

  lemma AlongOneAxis(p: Point, q: Point)
    ensures p.lng == q.lng ==> Manhattan(p, q) == Abs(p.lat - q.lat)
    ensures p.lat == q.lat ==> Manhattan(p, q) == Abs(p.lng - q.lng)
  {
  }

  lemma ManhattanIsProportional()
    ensures Proportional(Manhattan)
  {
    forall p, q, a: int {:trigger Towards(p, q, a)} | a >= 1
      ensures Manhattan(p, Towards(p, q, a)) == Manhattan(p, q) / a as real
      ensures Manhattan(Towards(p, q, a), q) == Manhattan(p, q) - Manhattan(p, q) / a as real
    {
      AbsShare(q.lat - p.lat, a);
      AbsShare(q.lng - p.lng, a);
      ShareSum(Abs(q.lat - p.lat), Abs(q.lng - p.lng), a as real);
    }
  }

  lemma AbsShare(x: real, a: int)
    requires a >= 1
    ensures Abs(x / a as real) == Abs(x) / a as real
    ensures Abs(x - x / a as real) == Abs(x) - Abs(x) / a as real
  {
    var n := a as real;
    assert x / n * n == x;
    assert x >= 0.0 ==> 0.0 <= x / n <= x by { if x >= 0.0 { Share(x, n); } }
    assert x < 0.0 ==> x <= x / n <= 0.0 by { if x < 0.0 { Share(-x, n); assert -x / n == -(x / n); } }
  }

  lemma Share(x: real, n: real)
    requires x >= 0.0 && n >= 1.0
    ensures 0.0 <= x / n <= x
  {
    assert x / n * n == x;
  }

  lemma ShareSum(x: real, y: real, n: real)
    requires n > 0.0
    ensures x / n + y / n == (x + y) / n
  {
  }
}
