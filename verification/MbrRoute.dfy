/** mbr_route.cc: the forward decision, which puts the search for intersections, the zone around an
    intersection and the neighbour table together. */
module MbrRoute {
  import opened Morton
  import opened GeoMove
  import opened MacAddress
  import opened RoadGraph
  import opened CrossVertex
  import opened Dwelling
  import opened NeighborTable

  const DBE := 26.0

  // The distance d2 less a constant share and one in proportion.
  function Reduced(d1: real, d2: real, d: real): real
    requires d1 != 0.0
  {
    d2 - d - d * d2 / d1
  }

  function Square(x: real): real { x * x }

  // How far the node and the destination have to be from the intersection for relaying to pay.
  predicate FarEnough(d1: real, d2: real, minD: nat, maxD: nat) {
    var d := minD as real;
    && d1 > d && d2 > d
    && (|| (d1 > maxD as real && d2 > maxD as real)
        || Square(Reduced(d1, d2, d)) + Square(Reduced(d2, d1, d)) >= Square(DBE))
  }

  // In closed form, for the distances between the two limits: the share lost over the two of them.
  lemma FarEnoughIff(d1: real, d2: real, minD: nat, maxD: nat)
    ensures d1 <= minD as real || d2 <= minD as real ==> !FarEnough(d1, d2, minD, maxD)
    ensures d1 > minD as real && d2 > minD as real && d1 > maxD as real && d2 > maxD as real ==> FarEnough(d1, d2, minD, maxD)
    ensures d1 > minD as real && d2 > minD as real && !(d1 > maxD as real && d2 > maxD as real) ==>
      var k := d1 * d2 - minD as real * (d1 + d2);
      FarEnough(d1, d2, minD, maxD) <==> k * k * (d1 * d1 + d2 * d2) >= 676.0 * (d1 * d1 * (d2 * d2))
  {
    hide FarEnough, Reduced, Square;
    Limited(d1, d2, minD, maxD);
    var d := minD as real;
    if d1 > d && d2 > d {
      var k := d1 * d2 - d * (d1 + d2);
      ReducedTimes(d1, d2, d, k);
      ReducedTimes(d2, d1, d, k);
      Judged(d1, d2, minD, maxD);
      InClosedForm(Reduced(d1, d2, d), Reduced(d2, d1, d), d1, d2, k);
      Spelt(d1, d2, k);
    }
  }

  lemma InClosedForm(a: real, b: real, d1: real, d2: real, k: real)
    requires d1 > 0.0 && d2 > 0.0 && a * d1 == k && b * d2 == k
    ensures Square(a) + Square(b) >= 676.0 <==> Square(k) * (Square(d1) + Square(d2)) >= 676.0 * (Square(d1) * Square(d2))
  {
    hide Square;
    SquaredTimes(a, d1, k);
    SquaredTimes(b, d2, k);
    SumOfShares(Square(a), Square(b), Square(k), Square(d1), Square(d2), Square(d1) * Square(d2));
  }

  lemma Spelt(d1: real, d2: real, k: real)
    ensures Square(k) * (Square(d1) + Square(d2)) == k * k * (d1 * d1 + d2 * d2)
    ensures Square(d1) * Square(d2) == d1 * d1 * (d2 * d2)
  {
  }

  lemma Limited(d1: real, d2: real, minD: nat, maxD: nat)
    ensures d1 <= minD as real || d2 <= minD as real ==> !FarEnough(d1, d2, minD, maxD)
    ensures d1 > minD as real && d2 > minD as real && d1 > maxD as real && d2 > maxD as real ==> FarEnough(d1, d2, minD, maxD)
  {
    hide Reduced, Square;
  }

  lemma Judged(d1: real, d2: real, minD: nat, maxD: nat)
    requires d1 > minD as real && d2 > minD as real
    ensures var a, b := Reduced(d1, d2, minD as real), Reduced(d2, d1, minD as real);
      FarEnough(d1, d2, minD, maxD) <==> (d1 > maxD as real && d2 > maxD as real) || Square(a) + Square(b) >= 676.0
  {
    hide Reduced;
    assert Square(DBE) == 676.0;
    hide Square;
  }

  lemma ReducedTimes(d1: real, d2: real, d: real, k: real)
    requires d1 > 0.0 && k == d1 * d2 - d * (d1 + d2)
    ensures Reduced(d1, d2, d) * d1 == k
  {
    var q := d * d2 / d1;
    assert q * d1 == d * d2;
    assert (d2 - d - q) * d1 == d2 * d1 - d * d1 - q * d1;
  }

  lemma SquaredTimes(a: real, d: real, k: real)
    requires d > 0.0 && a * d == k
    ensures Square(a) * Square(d) == Square(k) && Square(d) > 0.0
  {
    PositiveSquare(d);
    assert a * a * (d * d) == a * d * (a * d);
  }

  lemma PositiveSquare(d: real)
    requires d > 0.0
    ensures Square(d) > 0.0
  {
    PositiveProduct(d, d, Square(d));
  }

  lemma SumOfShares(a: real, b: real, k: real, x: real, y: real, p: real)
    requires x > 0.0 && y > 0.0 && p == x * y && a * x == k && b * y == k
    ensures a + b >= 676.0 <==> k * (x + y) >= 676.0 * p
  {
    PositiveProduct(x, y, p);
    SumTimes(a, b, k, x, y, p);
    Compared(a + b, p, k * (x + y));
  }

  lemma SumTimes(a: real, b: real, k: real, x: real, y: real, p: real)
    requires p == x * y && a * x == k && b * y == k
    ensures (a + b) * p == k * (x + y)
  {
    Regrouped(a, x, y, k, p);
    Swapped(x, y);
    Regrouped(b, y, x, k, p);
    Distributed(a, b, p);
    Distributed(x, y, k);
  }

  lemma Regrouped(a: real, x: real, y: real, k: real, p: real)
    requires a * x == k && p == x * y
    ensures a * p == k * y
  {
    assert a * (x * y) == a * x * y;
  }

  lemma Swapped(x: real, y: real)
    ensures x * y == y * x
  {
  }

  lemma PositiveProduct(x: real, y: real, p: real)
    requires x > 0.0 && y > 0.0 && p == x * y
    ensures p > 0.0
  {
  }

  lemma Distributed(x: real, y: real, p: real)
    ensures (x + y) * p == x * p + y * p && p * (x + y) == p * x + p * y
  {
  }

  lemma Compared(sum: real, p: real, share: real)
    requires p > 0.0 && sum * p == share
    ensures sum >= 676.0 <==> share >= 676.0 * p
  {
    assert (sum - 676.0) * p == share - 676.0 * p;
    if sum >= 676.0 { assert (sum - 676.0) * p >= 0.0; } else { assert (676.0 - sum) * p > 0.0; }
  }

  // With the limits 7 and 32: 30 m on both sides do not pay, 33 m and 32 m do.
  lemma BoundExamples()
    ensures !FarEnough(30.0, 30.0, 7, 32) && FarEnough(33.0, 32.0, 7, 32)
  {
    hide FarEnough;
    FarEnoughIff(30.0, 30.0, 7, 32);
    FarEnoughIff(33.0, 32.0, 7, 32);
  }

  // What the node knows when it has to forward: where it is, on which vertex of the map, the way to
  // the vertex of another place, and distances.
  datatype Surroundings = Surroundings(pos: Point, vertex: Vertex, vertexOf: (bv64, Point) -> Vertex, distance: (Point, Point) -> real)

  // No vehicle in the zone of the intersection, and not the destination either: on to the next.
  ghost predicate Passed(v: Vertex, live: seq<Neighbor>, dst: bv64) {
    !InZone(dst, v.geoHash) && !Served(live, v.geoHash)
  }

  ghost predicate WorthIt(v: Vertex, here: Surroundings, dst: Point, minD: nat, maxD: nat) {
    FarEnough(here.distance(here.pos, v.pos), here.distance(dst, v.pos), minD, maxD)
  }

  // The walk down the list stops at n, the first intersection that is not passed; a relay is used
  // exactly when the destination is not in its zone itself and the relay is worth it.
  ghost predicate StopsAt(list: seq<Vertex>, n: nat, live: seq<Neighbor>, dst: bv64, worth: bool, rc: int) {
    && n <= |list| && (forall m :: 0 <= m < n ==> Passed(list[m], live, dst))
    && (n < |list| ==> !Passed(list[n], live, dst))
    && rc == if n < |list| && !InZone(dst, list[n].geoHash) && worth then 0 else -1
  }

  // Entry k was chosen for the intersection: it is in its zone, stays there longest, and is not the
  // destination's own.
  ghost predicate Chosen(live: seq<Neighbor>, k: nat, v: Vertex, dest: Ip, now: int, mac: Mac) {
    FirstBest(live, k, v.geoHash) && live[k].ip != dest && live[k].expireTime >= now && live[k].mac == mac
  }

  // When a relay is used: at the first intersection that has a live entry or the destination in its
  // zone, the destination is not in it, and the distances to it allow it.
  lemma RelayedIff(list: seq<Vertex>, n: nat, live: seq<Neighbor>, dst: bv64, here: Surroundings, dstPos: Point,
                   minD: nat, maxD: nat, rc: int)
    requires StopsAt(list, n, live, dst, n < |list| && WorthIt(list[n], here, dstPos, minD, maxD), rc)
    ensures rc == 0 || rc == -1
    ensures rc == 0 <==> exists m: nat ::
      && m < |list| && (forall j :: 0 <= j < m ==> Deserted(list[j], live, dst)) && !Deserted(list[m], live, dst)
      && !InZone(dst, list[m].geoHash)
      && FarEnough(here.distance(here.pos, list[m].pos), here.distance(dstPos, list[m].pos), minD, maxD)
  {
    hide InZone, FarEnough;
    if n < |list| { WorthIs(list[n], here, dstPos, minD, maxD); }
    forall m | 0 <= m < |list|
      ensures Deserted(list[m], live, dst) == Passed(list[m], live, dst)
    {
    }
    hide Passed, WorthIt, Deserted;
    if m: nat :| m < |list| && (forall j :: 0 <= j < m ==> Deserted(list[j], live, dst)) && !Deserted(list[m], live, dst) {
      assert m == n;
    }
  }

  ghost predicate Deserted(v: Vertex, live: seq<Neighbor>, dst: bv64) {
    !InZone(dst, v.geoHash) && forall i :: 0 <= i < |live| ==> !InZone(live[i].geohash, v.geoHash)
  }

  // Which one: a live entry in the zone, not the destination's, that stays longest, and the first such.
  lemma RelayIs(live: seq<Neighbor>, k: nat, v: Vertex, dest: Ip, now: int, mac: Mac)
    requires Chosen(live, k, v, dest, now, mac)
    ensures k < |live| && live[k].mac == mac && live[k].ip != dest && live[k].expireTime >= now && InZone(live[k].geohash, v.geoHash)
    ensures forall i :: 0 <= i < |live| && InZone(live[i].geohash, v.geoHash) ==>
      var t, best := DwellingTime(live[i].geohash, live[i].direction, v.geoHash), DwellingTime(live[k].geohash, live[k].direction, v.geoHash);
      t <= best && (i < k ==> t < best)
  {
    hide InZone, DwellingTime;
  }

  lemma ChosenIs(live: seq<Neighbor>, k: nat, v: Vertex, at: nat, dest: Ip, now: int, mac: Mac)
    requires FirstBest(live, k, v.geoHash) && live[k].mac == mac && DistinctIps(live)
    requires at < |live| && live[at].ip == dest && !InZone(live[at].geohash, v.geoHash)
    requires forall i :: 0 <= i < |live| ==> live[i].expireTime >= now
    ensures Chosen(live, k, v, dest, now, mac)
  {
    hide InZone, Stays;
  }

  lemma Stopped(list: seq<Vertex>, n: nat, live: seq<Neighbor>, dst: bv64, worth: bool, inSet: bool)
    requires n < |list| && forall m :: 0 <= m < n ==> Passed(list[m], live, dst)
    requires inSet == InZone(dst, list[n].geoHash) && (inSet || Served(live, list[n].geoHash))
    ensures StopsAt(list, n, live, dst, worth, if !inSet && worth then 0 else -1)
  {
    hide InZone, Served;
  }

  lemma PassedIs(v: Vertex, live: seq<Neighbor>, dst: bv64)
    requires !InZone(dst, v.geoHash) && !Served(live, v.geoHash)
    ensures Passed(v, live, dst)
  {
  }

  lemma AllPassed(list: seq<Vertex>, live: seq<Neighbor>, dst: bv64)
    requires forall m :: 0 <= m < |list| ==> Passed(list[m], live, dst)
    ensures StopsAt(list, |list|, live, dst, false, -1)
  {
    hide Passed, InZone;
  }

  lemma WorthIs(v: Vertex, here: Surroundings, dst: Point, minD: nat, maxD: nat)
    ensures WorthIt(v, here, dst, minD, maxD) == FarEnough(here.distance(here.pos, v.pos), here.distance(dst, v.pos), minD, maxD)
  {
    hide FarEnough;
  }

  lemma EntriesDiffer(nb: Neighbors)
    requires nb.Valid()
    ensures DistinctIps(nb.nb)
  {
  }

  lemma PurgedOnce(nb: seq<Neighbor>, now: int)
    ensures Live(Live(nb, now), now) == Live(nb, now)
    ensures forall i :: 0 <= i < |Live(nb, now)| ==> Live(nb, now)[i].expireTime >= now
  {
    PurgedIsLive(nb, now);
    LiveIsAll(Live(nb, now), now);
  }

  lemma CrossingsInGraph(trace: seq<Stage>, all: seq<Vertex>, from: Vertex, to: Vertex, list: seq<Vertex>)
    requires Run(trace, Adjacency(all), from, to) && Ended(trace[|trace| - 1], to) && Collected(trace, to, list)
    ensures forall x :: x in list ==> x in all
  {
    CrossingsAreInside(trace, Adjacency(all), from, to, list);
    hide Run, Collected, Ended;
    forall x | x in list
      ensures x in all
    {
      var w :| Inside(Adjacency(all), w, from, x, to);
    }
  }

  lemma InGraphFits(all: seq<Vertex>, list: seq<Vertex>)
    requires (forall v :: v in all ==> Fits(v.geoHash, GEOHASH_STEP_BIT)) && forall x :: x in list ==> x in all
    ensures forall i :: 0 <= i < |list| ==> Fits(list[i].geoHash, GEOHASH_STEP_BIT)
  {
    hide Fits;
    forall i | 0 <= i < |list|
      ensures Fits(list[i].geoHash, GEOHASH_STEP_BIT)
    {
      assert list[i] in list;
    }
  }

  // The checks of the distances to the intersection.
  method CheckDistances(d1: real, d2: real, minD: nat, maxD: nat) returns (worth: bool)
    ensures worth == FarEnough(d1, d2, minD, maxD)
  {
    hide Reduced, Square;
    var d := minD as real;
    if d1 <= d || d2 <= d { return false; }
    if !(d1 > maxD as real && d2 > maxD as real) {
      var d3, d4 := Reduced(d1, d2, d), Reduced(d2, d1, d);
      if Square(d3) + Square(d4) < Square(DBE) { return false; }
    }
    worth := true;
  }

  class MbrRoute {
    var minD: nat
    var maxD: nat
    var relayedPktNum: nat
    var noNeighborPktNum: nat

    constructor ()
      ensures minD == 7 && maxD == 32 && relayedPktNum == 0 && noNeighborPktNum == 0
    {
      minD, maxD, relayedPktNum, noNeighborPktNum := 7, (0.707 * DBE + 14.0).Floor, 0, 0;
    }

    // mbr_forward. nb is null on a node without the neighbour application; at is the entry of the
    // destination, list what cross_vertex found, relay the entry chosen.
    method MbrForward(dest: Ip, initialized: bool, nb: Neighbors?, here: Surroundings, now: int, ghost all: seq<Vertex>)
      returns (rc: int, toMac: Mac, relayMac: Mac, ghost at: nat, ghost list: seq<Vertex>, ghost trace: seq<Stage>, ghost n: nat, ghost relay: nat)
      requires nb != null ==> nb.Valid() && nb.clock <= now
      requires Closed(Adjacency(all)) && forall u, v :: u in all && v in all && u.id == v.id ==> u == v
      requires forall v :: v in all ==> Fits(v.geoHash, GEOHASH_STEP_BIT)
      requires here.vertex in all && forall h, p :: here.vertexOf(h, p) in all
      modifies this, nb
      ensures minD == old(minD) && maxD == old(maxD)
      ensures nb != null ==> nb.Valid()
      ensures nb != null && initialized ==> nb.nb == Live(old(nb.nb), now)
      // nothing is tried without a live entry of the destination
      ensures initialized && nb != null && Listed(nb.nb, dest) ==> at < |nb.nb| && nb.nb[at].ip == dest && toMac == nb.nb[at].mac
      ensures initialized && nb != null && Listed(nb.nb, dest) && nb.nb[at].geohash != 0 ==>
        var dstVertex := here.vertexOf(nb.nb[at].geohash, nb.nb[at].pos);
        Run(trace, Adjacency(all), dstVertex, here.vertex) && Ended(trace[|trace| - 1], here.vertex) && Collected(trace, here.vertex, list)
      ensures !(initialized && nb != null && Listed(nb.nb, dest) && nb.nb[at].geohash != 0) ==> list == []
      // the intersections are tried in turn
      ensures list == [] ==> rc == -1
      ensures list != [] ==>
        StopsAt(list, n, nb.nb, nb.nb[at].geohash, n < |list| && WorthIt(list[n], here, nb.nb[at].pos, minD, maxD), rc)
      ensures rc == 0 ==> n < |list| && Chosen(nb.nb, relay, list[n], dest, now, relayMac)
      ensures relayedPktNum == old(relayedPktNum) + if rc == 0 then 1 else 0
      ensures noNeighborPktNum == old(noNeighborPktNum) + if list != [] && n == |list| then 1 else 0
    {
      hide *;
      rc, toMac, relayMac, at, list, trace, n, relay := -1, NO_MAC, NO_MAC, 0, [], [], 0, 0;
      if !initialized { return; }
      if nb == null { return; }
      var dstGeohash, dstPos;
      dstGeohash, toMac, dstPos, at := nb.GetGeohashFromIp(dest, now);
      if dstGeohash == 0 { return; }
      PurgedOnce(old(nb.nb), now);
      EntriesDiffer(nb);
      var dstVertex := here.vertexOf(dstGeohash, dstPos);
      var intersections;
      intersections, trace := FindCrossings(dstVertex, here.vertex, all);
      if intersections == [] { return; }
      list := intersections;
      CrossingsInGraph(trace, all, dstVertex, here.vertex, list);
      InGraphFits(all, list);
      rc, relayMac, n, relay := WalkIntersections(intersections, dest, dstGeohash, dstPos, nb, here, now, at);
    }

    // The loop of mbr_forward over the intersections.
    method WalkIntersections(list: seq<Vertex>, dest: Ip, dstGeohash: bv64, dstPos: Point, nb: Neighbors, here: Surroundings,
                             now: int, ghost at: nat)
      returns (rc: int, relayMac: Mac, ghost n: nat, ghost relay: nat)
      requires nb.Valid() && nb.clock == now && Live(nb.nb, now) == nb.nb && DistinctIps(nb.nb)
      requires forall i :: 0 <= i < |nb.nb| ==> nb.nb[i].expireTime >= now
      requires at < |nb.nb| && nb.nb[at].ip == dest && nb.nb[at].geohash == dstGeohash
      requires forall i :: 0 <= i < |list| ==> Fits(list[i].geoHash, GEOHASH_STEP_BIT)
      modifies this, nb
      ensures nb.Valid() && nb.nb == old(nb.nb) && minD == old(minD) && maxD == old(maxD)
      ensures StopsAt(list, n, nb.nb, dstGeohash, n < |list| && WorthIt(list[n], here, dstPos, minD, maxD), rc)
      ensures rc == 0 ==> n < |list| && Chosen(nb.nb, relay, list[n], dest, now, relayMac)
      ensures relayedPktNum == old(relayedPktNum) + if rc == 0 then 1 else 0
      ensures noNeighborPktNum == old(noNeighborPktNum) + if n == |list| then 1 else 0
    {
      hide *;
      ghost var live := nb.nb;
      rc, relayMac, n, relay := -1, NO_MAC, 0, 0;
      var i := 0;
      while i < |list|
        invariant 0 <= i <= |list| && forall m :: 0 <= m < i ==> Passed(list[m], live, dstGeohash)
        invariant nb.Valid() && nb.clock == now && nb.nb == live
        invariant minD == old(minD) && maxD == old(maxD)
        invariant relayedPktNum == old(relayedPktNum) && noNeighborPktNum == old(noNeighborPktNum)
      {
        n := i;
        var v := list[i];
        var zone := new GeoHashSetCoordinate(3, 3);
        var _ := GetNeighborsInSet(zone, v.geoHash);
        var inSet := IsGeohashInSet(dstGeohash, zone.geohashset, v.geoHash);
        if inSet {
          Stopped(list, i, live, dstGeohash, WorthIt(v, here, dstPos, minD, maxD), inSet);
          return;
        }
        var ret, relaymac;
        BestInZone(nb.nb, zone.geohashset, v.geoHash);
        ret, relaymac, relay := nb.GetnbFromsetBest(zone, now);
        if ret == 0 {
          PassedIs(v, live, dstGeohash);
          i := i + 1;
          continue;
        }
        var worth := CheckDistances(here.distance(here.pos, v.pos), here.distance(dstPos, v.pos), minD, maxD);
        WorthIs(v, here, dstPos, minD, maxD);
        Stopped(list, i, live, dstGeohash, worth, inSet);
        if !worth { return; }
        ChosenIs(live, relay, v, at, dest, now, relaymac);
        relayMac := relaymac;
        relayedPktNum := relayedPktNum + 1;
        rc := 0;
        return;
      }
      n := |list|;
      AllPassed(list, live, dstGeohash);
      noNeighborPktNum := noNeighborPktNum + 1;
    }
  }
}
