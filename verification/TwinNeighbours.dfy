/** Two neighbours that are heard with one MAC address, on a map with one intersection: the forward
    decision takes one of them as the relay to the other, and the packet is lost. */
module TwinNeighbours {
  import opened CrossVertex
  import opened Geometry
  import opened GeoMove
  import opened MacAddress
  import opened MacHeader
  import opened MbrRoute
  import opened Morton
  import opened NeighborTable
  import opened Options
  import opened RelayNetwork
  import opened RelayPath
  import opened RoadGraph
  import opened Sequences

  // ---- the map ----

  // Three vertices in a row, on two roads.
  ghost predicate TwoRoads(adj: Adj, d: Vertex, v: Vertex, s: Vertex) {
    && d != v && v != s && d != s
    && adj == map[d := [Edge(v, 1)], v := [Edge(s, 2), Edge(d, 1)], s := [Edge(v, 2)]]
  }

  method TwoRoadMap() returns (d: Vertex, v: Vertex, s: Vertex, ghost all: seq<Vertex>)
    ensures TwoRoads(Adjacency(all), d, v, s) && Simple(Adjacency(all)) && forall x :: x in all <==> x == d || x == v || x == s
    ensures d.id == "d" && v.id == "v" && s.id == "s" && d.geoHash == s.geoHash == 3 && v.geoHash == 51
    ensures v.pos == Point(0.0, 40.0) && s.pos == Point(40.0, 40.0)
  {
    hide *;
    d, v, s, all := ThreeVertices();
    RoadsBetween(Adjacency(all), d, v, s);
    AddUndirected(d, v, 1, all);
    AddUndirected(v, s, 2, all);
  }

  method ThreeVertices() returns (d: Vertex, v: Vertex, s: Vertex, ghost all: seq<Vertex>)
    ensures d != v && v != s && d != s && fresh(d) && fresh(v) && fresh(s) && forall x :: x in all <==> x == d || x == v || x == s
    ensures Adjacency(all) == map[d := [], v := [], s := []] && DegreesCount(all)
    ensures d.id == "d" && v.id == "v" && s.id == "s" && d.geoHash == s.geoHash == 3 && v.geoHash == 51
    ensures v.pos == Point(0.0, 40.0) && s.pos == Point(40.0, 40.0)
  {
    hide Simple, Distinct;
    d := new Vertex("d", Point(0.0, 0.0), 3, false);
    v := new Vertex("v", Point(0.0, 40.0), 51, true);
    s := new Vertex("s", Point(40.0, 40.0), 3, false);
    var graph := new Graph();
    graph.AddVertex(d);
    graph.AddVertex(v);
    graph.AddVertex(s);
    all := graph.vertices;
  }

  lemma RoadsBetween(adj: Adj, d: Vertex, v: Vertex, s: Vertex)
    requires d != v && v != s && d != s && adj == map[d := [], v := [], s := []]
    ensures var one := Link(adj, d, v, 1);
      v in one && s in one && TwoRoads(Link(one, v, s, 2), d, v, s) && Simple(Link(one, v, s, 2))
  {
    hide Simple, TwoRoads, Link;
    FirstRoad(adj, d, v, s);
    SecondRoad(Link(adj, d, v, 1), d, v, s);
    NoEdges(adj);
    LinkSimple(adj, d, v, 1);
    LinkSimple(Link(adj, d, v, 1), v, s, 2);
  }

  lemma FirstRoad(adj: Adj, d: Vertex, v: Vertex, s: Vertex)
    requires d != v && v != s && d != s && adj == map[d := [], v := [], s := []]
    ensures Link(adj, d, v, 1) == map[d := [Edge(v, 1)], v := [Edge(d, 1)], s := []]
  {
    var one := Link(adj, d, v, 1);
    assert one[d] == [Edge(v, 1)] && one[v] == [Edge(d, 1)] && one[s] == [];
  }

  lemma SecondRoad(one: Adj, d: Vertex, v: Vertex, s: Vertex)
    requires d != v && v != s && d != s && one == map[d := [Edge(v, 1)], v := [Edge(d, 1)], s := []]
    ensures TwoRoads(Link(one, v, s, 2), d, v, s)
  {
    var two := Link(one, v, s, 2);
    assert two[d] == [Edge(v, 1)] && two[v] == [Edge(s, 2), Edge(d, 1)] && two[s] == [Edge(v, 2)];
  }

  lemma NoEdges(adj: Adj)
    requires forall x :: x in adj ==> adj[x] == []
    ensures Simple(adj)
  {
  }

  // Every search over it lists the vertex in the middle.
  lemma ListsTheMiddle(trace: seq<Stage>, adj: Adj, d: Vertex, v: Vertex, s: Vertex, list: seq<Vertex>)
    requires TwoRoads(adj, d, v, s)
    requires Run(trace, adj, d, s) && Ended(trace[|trace| - 1], s) && Collected(trace, s, list)
    ensures list == [v]
  {
    hide *;
    MiddleIsFound(trace, adj, d, v, s);
    OnlyTheMiddle(trace, adj, d, v, s, list);
    ListedOnce(trace, s, v, list);
  }

  lemma ListedOnce(trace: seq<Stage>, s: Vertex, v: Vertex, list: seq<Vertex>)
    requires Collected(trace, s, list) && |trace| > 3 && Crossing(trace[3].queue, s) == Some(v)
    requires forall x :: x in list ==> x == v
    ensures list == [v]
  {
    hide Crossing;
    if |list| > 1 { TwoDiffer(list, v); }
    assert v in list && forall i :: 0 <= i < |list| ==> list[i] in list;
  }

  lemma TwoDiffer(list: seq<Vertex>, v: Vertex)
    requires Distinct(list) && |list| > 1
    ensures list[0] != v || list[1] != v
  {
    assert Differ(list, 0, 1);
  }

  lemma OnlyTheMiddle(trace: seq<Stage>, adj: Adj, d: Vertex, v: Vertex, s: Vertex, list: seq<Vertex>)
    requires TwoRoads(adj, d, v, s)
    requires Run(trace, adj, d, s) && Ended(trace[|trace| - 1], s) && Collected(trace, s, list)
    ensures forall x :: x in list ==> x == v
  {
    hide Run, Ended, Collected, Crossing;
    CrossingsAreInside(trace, adj, d, s, list);
  }

  // It is read off when the third edge is followed.
  lemma MiddleIsFound(trace: seq<Stage>, adj: Adj, d: Vertex, v: Vertex, s: Vertex)
    requires TwoRoads(adj, d, v, s) && Run(trace, adj, d, s) && Ended(trace[|trace| - 1], s)
    ensures |trace| > 3 && Crossing(trace[3].queue, s) == Some(v)
  {
    hide Crossing;
    FirstStages(trace, adj, d, v, s);
    MiddleIsRead(d, v, s);
  }

  lemma FirstStages(trace: seq<Stage>, adj: Adj, d: Vertex, v: Vertex, s: Vertex)
    requires TwoRoads(adj, d, v, s) && Run(trace, adj, d, s) && Ended(trace[|trace| - 1], s)
    ensures |trace| > 3 && trace[3].queue == [Entry(d, -1, 0), Entry(v, 0, 1), Entry(s, 1, 2)]
  {
    hide Searching;
    assert trace[0] == Stage([Entry(d, -1, 0)], 0, 0, -1);
    assert StepAt(trace, 0, adj, s);
    assert trace[1].queue == [Entry(d, -1, 0), Entry(v, 0, 1)];
    assert StepAt(trace, 1, adj, s);
    assert StepAt(trace, 2, adj, s);
  }

  lemma MiddleIsRead(d: Vertex, v: Vertex, s: Vertex)
    requires d != v && v != s && d != s
    ensures Crossing([Entry(d, -1, 0), Entry(v, 0, 1), Entry(s, 1, 2)], s) == Some(v)
  {
    var queue := [Entry(d, -1, 0), Entry(v, 0, 1), Entry(s, 1, 2)];
    PositionIs(queue, s, 2);
    assert ParentBefore(queue, 1) && ParentBefore(queue, 2);
    assert Trail(queue, 0) == [0];
    assert Trail(queue, 1) == [1, 0];
    assert Trail(queue, 2) == [2, 1, 0];
    assert OnlyChange(Roads(queue, Trail(queue, 2)), 0);
    MutationAt(queue, 2, 0);
  }

  // ---- the neighbours ----

  // The first of them is away from the intersection in cell 51 and the second right there.
  function Twins(mac: Mac): seq<Neighbor> {
    [Neighbor(1, mac, 10, 0, 3, 0, Point(0.0, 0.0)), Neighbor(2, mac, 10, 0, 51, 0, Point(0.0, 40.0))]
  }

  // The table keeps them both, since it tells neighbours by their IP address.
  method HearTwins(mac: Mac) returns (nb: Neighbors)
    ensures fresh(nb) && nb.Valid() && nb.clock == 0 && nb.nb == Twins(mac)
  {
    hide Refines, Live;
    ghost var one := [Twins(mac)[0]];
    LiveIsAll(one, 0);
    LiveIsAll(one + [Twins(mac)[1]], 0);
    nb := new Neighbors(0);
    nb.Update(1, 10, mac, 3, 0, Point(0.0, 0.0), 0);
    assert [] + one == one && nb.nb == one;
    nb.Update(2, 10, mac, 51, 0, Point(0.0, 40.0), 0);
  }

  lemma TwinCells()
    ensures Fits(51, GEOHASH_STEP_BIT) && Fits(3, GEOHASH_STEP_BIT) && InZone(51, 51) && !InZone(3, 51)
  {
    assert LatOf(51, 3) == 5 && LatOf(3, 1) == 1;
    Widen(51, 3, GEOHASH_STEP_BIT);
    Widen(3, 1, GEOHASH_STEP_BIT);
    InTheMiddle(51);
    hide ZoneCell, LatOf, LonOf, Fits;
    forall i: nat, j: nat | i < 3 && j < 3
      ensures ZoneCell(51, i, j) != 3
    {
      ZoneNumbers(51, i, j);
    }
  }

  // The walk stops at the intersection, with the only one of them that is not the neighbour 1 itself.
  lemma TwinDecision(mac: Mac, v: Vertex, here: Surroundings, n: nat, rc: int)
    requires v.geoHash == 51 && WorthIt(v, here, Point(0.0, 0.0), 7, 32)
    requires StopsAt([v], n, Twins(mac), 3, n < 1 && WorthIt([v][n], here, Point(0.0, 0.0), 7, 32), rc)
    ensures n == 0 && rc == 0
  {
    hide InZone, WorthIt;
    TwinCells();
    assert InZone(Twins(mac)[1].geohash, 51);
    assert !Passed([v][0], Twins(mac), 3);
  }

  lemma TwinRelay(mac: Mac, v: Vertex, relay: nat, relayMac: Mac)
    requires Chosen(Twins(mac), relay, v, 1, 0, relayMac)
    ensures relayMac == mac
  {
    hide FirstBest;
    assert relay < 2 by { FirstOfTwo(mac, relay, v); }
  }

  lemma FirstOfTwo(mac: Mac, relay: nat, v: Vertex)
    requires FirstBest(Twins(mac), relay, v.geoHash)
    ensures relay < 2
  {
    hide InZone, Stays;
  }

  lemma ApartEnough(v: Vertex, here: Surroundings)
    requires here.distance(here.pos, v.pos) == 40.0 && here.distance(Point(0.0, 0.0), v.pos) == 40.0
    ensures WorthIt(v, here, Point(0.0, 0.0), 7, 32)
  {
    hide WorthIt, FarEnough;
    WorthIs(v, here, Point(0.0, 0.0), 7, 32);
    FarApart();
  }

  lemma Lengths()
    ensures Manhattan(Point(40.0, 40.0), Point(0.0, 40.0)) == 40.0 && Manhattan(Point(0.0, 0.0), Point(0.0, 40.0)) == 40.0
  {
    hide Manhattan;
    AlongOneAxis(Point(40.0, 40.0), Point(0.0, 40.0));
    AlongOneAxis(Point(0.0, 0.0), Point(0.0, 40.0));
  }

  lemma FarApart()
    ensures FarEnough(40.0, 40.0, 7, 32)
  {
    hide Square, Reduced;
  }

  // ---- the packet ----

  // mbr_forward, for the neighbour 1 on that map.
  method DecideBetweenTwins(mac: Mac) returns (rc: int, toMac: Mac, relayMac: Mac)
    ensures rc == 0 && toMac == mac && relayMac == mac
  {
    hide *;
    var d, v, s;
    ghost var all;
    d, v, s, all := TwoRoadMap();
    SimpleIsClosed(Adjacency(all));
    TwinCells();
    var nb := HearTwins(mac);
    AllLive(mac);
    var route := new MbrRoute();
    var here := Surroundings(s.pos, s, (h, p) => d, Manhattan);
    ghost var at, list, trace, n, relay;
    rc, toMac, relayMac, at, list, trace, n, relay := route.MbrForward(1, true, nb, here, 0, all);
    FirstTwin(mac, at);
    ListsTheMiddle(trace, Adjacency(all), d, v, s, list);
    Lengths();
    ApartEnough(v, here);
    TwinDecision(mac, v, here, n, rc);
    TwinRelay(mac, v, relay, relayMac);
  }

  lemma AllLive(mac: Mac)
    ensures Live(Twins(mac), 0) == Twins(mac) && Listed(Twins(mac), 1)
  {
    LiveIsAll(Twins(mac), 0);
    assert Twins(mac)[0].ip == 1;
  }

  lemma FirstTwin(mac: Mac, at: nat)
    requires at < |Twins(mac)| && Twins(mac)[at].ip == 1
    ensures Twins(mac)[at] == Neighbor(1, mac, 10, 0, 3, 0, Point(0.0, 0.0)) && Twins(mac)[at].geohash != 0
  {
  }

  // Tagged with that relay, the packet goes up at no node of any network.
  method TwinsLosePacket(mac: Mac, contents: int, net: Network, from: Mac, fresh': Header, g: Header, g': Header)
    requires Addresses(net) && from in net && !IsGroup(mac) && fresh'.InWidth() && g.InWidth() && g'.InWidth()
    modifies net.Values
    ensures StateOf(net).up == old(StateOf(net)).up
  {
    hide *;
    var rc, toMac, relayMac := DecideBetweenTwins(mac);
    var packet := Packet(contents, Some(Tag(true, relayMac)));
    UnicastHop(net, from, packet, toMac, fresh', g, g');
    GoesUpNowhere(net, from, packet, toMac, old(StateOf(net)), StateOf(net));
  }

  lemma GoesUpNowhere(net: Network, from: Mac, packet: Packet, to: Mac, s: State, s': State)
    requires RelayNetwork.Carried(net, from, packet, to, s, s') && packet.tag == Some(Tag(true, to))
    ensures s'.up == s.up
  {
  }
}
