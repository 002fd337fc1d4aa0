/** What cutting road segments does to a graph, on adjacency maps: every original edge is spread
    over a chain of vertices, and each cut makes one chain one vertex longer. */
module RoadChains {
  import opened Sequences
  import opened RoadGraph
  import opened Segments
  import opened Geometry

  // ---- one cut ----

  ghost function Cut(adj: Adj, from: Vertex, to: Vertex, temp: Vertex, road: int): Adj
    requires from in adj && to in adj
  {
    Unlink(Link(Link(adj[temp := []], from, temp, road), temp, to, road), from, to)
  }

  lemma CutLists(adj: Adj, from: Vertex, to: Vertex, temp: Vertex, road: int)
    requires from in adj && to in adj && temp !in adj && from != to
    ensures var adj' := Cut(adj, from, to, temp, road);
      && adj'.Keys == adj.Keys + {temp}
      && adj'[from] == [Edge(temp, road)] + Without(adj[from], to)
      && adj'[to] == [Edge(temp, road)] + Without(adj[to], from)
      && adj'[temp] == [Edge(to, road), Edge(from, road)]
      && forall v :: v in adj && v != from && v != to ==> adj'[v] == adj[v]
  {
  }

  // g times u
  ghost function Times(g: int, u: real): real {
    if g <= 0 then 0.0 else u + Times(g - 1, u)
  }

  lemma {:induction false} TimesIsProduct(g: int, u: real)
    requires g >= 0
    ensures Times(g, u) == g as real * u
  {
    if g > 0 {
      TimesIsProduct(g - 1, u);
      assert g as real == (g - 1) as real + 1.0;
    }
  }

  // A cut of the edge from - to by the new vertex temp, which takes off one piece of length unit.
  datatype CutRecord = CutRecord(from: Vertex, to: Vertex, temp: Vertex, unit: real)

  // d is the length of the edge, of which temp leaves one unit on the side of from.
  ghost predicate TakesOnePiece(c: CutRecord, geo: Geometry) {
    var d := geo.Between(c.from, c.to);
    && d > MAX_DIST && geo.Between(c.to, c.from) == d && Times(Pieces(d), c.unit) == d
    && geo.Between(c.from, c.temp) == c.unit && geo.Between(c.temp, c.from) == c.unit
    && geo.Between(c.temp, c.to) == d - c.unit && geo.Between(c.to, c.temp) == d - c.unit
  }

  // c cuts a long edge of adj with a vertex that is new.
  ghost predicate ValidCut(adj: Adj, c: CutRecord, geo: Geometry) {
    && c.from in adj && c.to in adj && HasEdge(adj[c.from], c.to) && c.temp !in adj
    && TakesOnePiece(c, geo)
  }

  ghost function CutBy(adj: Adj, c: CutRecord): Adj
    requires c.from in adj && c.to in adj
  {
    Cut(adj, c.from, c.to, c.temp, RoadOf(adj[c.from], c.to))
  }

  // The point edge_division chooses is such a place.
  lemma TowardsTakesOnePiece(from: Vertex, to: Vertex, temp: Vertex, geo: Geometry) returns (c: CutRecord)
    requires Proportional(geo.distance) && geo.Between(from, to) > MAX_DIST
    requires temp.pos == Towards(from.pos, to.pos, Pieces(geo.Between(from, to)))
    ensures c.from == from && c.to == to && c.temp == temp && TakesOnePiece(c, geo)
  {
    var d := geo.Between(from, to);
    var a := Pieces(d);
    var unit := d / a as real;
    TimesIsProduct(a, unit);
    assert geo.distance(from.pos, Towards(from.pos, to.pos, a)) == unit;
    c := CutRecord(from, to, temp, unit);
  }

  lemma UnitOf(a: int, unit: real, d: real)
    requires a >= 1 && Times(a, unit) == d
    ensures unit == d / a as real
  {
    TimesIsProduct(a, unit);
  }

  // ---- work left ----

  // How many cuts the edges in es, listed at v, still need.
  ghost function Excess(v: Vertex, es: seq<Edge>, geo: Geometry): nat {
    if es == [] then 0 else Pieces(geo.Between(v, es[0].vertex)) - 1 + Excess(v, es[1..], geo)
  }

  // The sum over the vertices in order; every undirected edge counts twice.
  ghost function Work(order: seq<Vertex>, adj: Adj, geo: Geometry): nat
    requires forall v :: v in order ==> v in adj
  {
    if order == [] then 0
    else
      var n := |order| - 1;
      Work(order[..n], adj, geo) + Excess(order[n], adj[order[n]], geo)
  }

  lemma {:induction false} ExcessWithout(v: Vertex, es: seq<Edge>, to: Vertex, geo: Geometry)
    requires HasEdge(es, to)
    ensures Excess(v, Without(es, to), geo) == Excess(v, es, geo) - (Pieces(geo.Between(v, to)) - 1)
  {
    if es[0].vertex != to {
      EdgeInTail(es, to);
      ExcessWithout(v, es[1..], to, geo);
    }
  }

  lemma {:induction false} WorkFrame(order: seq<Vertex>, adj: Adj, adj': Adj, geo: Geometry)
    requires forall v :: v in order ==> v in adj && v in adj' && adj[v] == adj'[v]
    ensures Work(order, adj, geo) == Work(order, adj', geo)
  {
    if order != [] { WorkFrame(order[..|order| - 1], adj, adj', geo); }
  }

  lemma {:induction false} WorkAt(order: seq<Vertex>, adj: Adj, adj': Adj, k: nat, geo: Geometry)
    requires Distinct(order) && k < |order|
    requires forall v :: v in order ==> v in adj && v in adj' && (v != order[k] ==> adj[v] == adj'[v])
    ensures Work(order, adj', geo) ==
              Work(order, adj, geo) - Excess(order[k], adj[order[k]], geo) + Excess(order[k], adj'[order[k]], geo)
  {
    var n := |order| - 1;
    DiffersFromOthers(order, k);
    Prefix(order, n);
    if k == n {
      WorkFrame(order[..n], adj, adj', geo);
    } else {
      WorkAt(order[..n], adj, adj', k, geo);
    }
  }

  // A cut takes pieces - 1 from each end, and the two new edges on the far side need one cut less.
  lemma CutExcess(adj: Adj, c: CutRecord, road: int, geo: Geometry)
    requires ValidCut(adj, c, geo) && c.from != c.to && HasEdge(adj[c.to], c.from)
    ensures var adj' := Cut(adj, c.from, c.to, c.temp, road); var a := Pieces(geo.Between(c.from, c.to));
      && Excess(c.from, adj'[c.from], geo) == Excess(c.from, adj[c.from], geo) - (a - 1)
      && Excess(c.to, adj'[c.to], geo) == Excess(c.to, adj[c.to], geo) - 1
      && Excess(c.temp, adj'[c.temp], geo) == a - 2
  {
    var d := geo.Between(c.from, c.to);
    CutLists(adj, c.from, c.to, c.temp, road);
    PiecesAfterCut(d, c.unit);
    ExcessWithout(c.from, adj[c.from], c.to, geo);
    ExcessWithout(c.to, adj[c.to], c.from, geo);
    ExcessOfTwo(c.temp, Edge(c.to, road), Edge(c.from, road), geo);
  }

  lemma PiecesAfterCut(d: real, unit: real)
    requires d > MAX_DIST && Times(Pieces(d), unit) == d
    ensures Pieces(unit) == 1 && Pieces(d - unit) == Pieces(d) - 1 && unit <= MAX_DIST
  {
    UnitOf(Pieces(d), unit, d);
    CutOne(d);
  }

  lemma ExcessOfTwo(v: Vertex, e: Edge, f: Edge, geo: Geometry)
    ensures Excess(v, [e, f], geo) == Pieces(geo.Between(v, e.vertex)) - 1 + Pieces(geo.Between(v, f.vertex)) - 1
  {
    assert [e, f][1..] == [f];
    assert Excess(v, [f], geo) == Pieces(geo.Between(v, f.vertex)) - 1;
  }

  // Changing two lists and adding a vertex.
  lemma WorkOfThree(order: seq<Vertex>, adj: Adj, adj': Adj, from: Vertex, to: Vertex, temp: Vertex, geo: Geometry)
    requires Distinct(order) && from in order && to in order && from != to && temp !in order
    requires forall v :: v in order ==> v in adj && v in adj'
    requires forall v :: v in order && v != from && v != to ==> adj[v] == adj'[v]
    requires temp in adj'
    ensures forall v :: v in order + [temp] ==> v in adj'
    ensures Work(order + [temp], adj', geo) == Work(order, adj, geo)
      - Excess(from, adj[from], geo) + Excess(from, adj'[from], geo)
      - Excess(to, adj[to], geo) + Excess(to, adj'[to], geo) + Excess(temp, adj'[temp], geo)
  {
    var mid := adj[from := adj'[from]];
    var i :| 0 <= i < |order| && order[i] == from;
    var j :| 0 <= j < |order| && order[j] == to;
    WorkAt(order, adj, mid, i, geo);
    WorkAt(order, mid, adj', j, geo);
    assert (order + [temp])[..|order|] == order;
  }

  // A cut leaves two (one undirected edge) fewer to do.
  lemma CutWork(order: seq<Vertex>, adj: Adj, c: CutRecord, geo: Geometry)
    requires Distinct(order) && Simple(adj) && ValidCut(adj, c, geo)
    requires forall v :: v in order <==> v in adj
    ensures forall v :: v in order + [c.temp] ==> v in CutBy(adj, c)
    ensures Work(order + [c.temp], CutBy(adj, c), geo) == Work(order, adj, geo) - 2
  {
    var road := RoadOf(adj[c.from], c.to);
    NotAnEnd(adj, c.from, c.to);
    EdgeBothWays(adj, c.from, c.to);
    CutLists(adj, c.from, c.to, c.temp, road);
    CutExcess(adj, c, road, geo);
    WorkOfThree(order, adj, CutBy(adj, c), c.from, c.to, c.temp, geo);
  }

  lemma NotAnEnd(adj: Adj, from: Vertex, to: Vertex)
    requires Simple(adj) && from in adj && HasEdge(adj[from], to)
    ensures from != to
    ensures forall v, t :: v in adj && t !in adj ==> !HasEdge(adj[v], t)
  {
    var i :| 0 <= i < |adj[from]| && adj[from][i].vertex == to;
    assert adj[from][i] in adj[from];
    forall v, t | v in adj && t !in adj
      ensures !HasEdge(adj[v], t)
    {
      forall k | 0 <= k < |adj[v]|
        ensures adj[v][k].vertex != t
      {
        assert adj[v][k] in adj[v];
      }
    }
  }

  // ---- chains ----

  type Road = (Vertex, Vertex)

  // The vertices an original road runs through, how many pieces lie between neighbours, and how
  // long a piece is.
  datatype Chain = Chain(verts: seq<Vertex>, gaps: seq<int>, unit: real)

  // A chain for every original road (listed from the end that comes first), and for each listed
  // edge, in both directions, the road it is part of.
  datatype Plan = Plan(chains: map<Road, Chain>, on: map<Road, Road>)

  ghost function Sum(gaps: seq<int>): int {
    if gaps == [] then 0 else gaps[0] + Sum(gaps[1..])
  }

  ghost function Length(r: Road, geo: Geometry): real { geo.Between(r.0, r.1) }

  // c leads from one end of r to the other in Pieces(r) pieces, through new vertices only.
  ghost predicate Fits(r: Road, c: Chain, adj0: Adj, geo: Geometry) {
    && |c.verts| == |c.gaps| + 1 && |c.gaps| >= 1
    && c.verts[0] == r.0 && c.verts[|c.gaps|] == r.1
    && (forall i :: 0 <= i < |c.gaps| ==> c.gaps[i] >= 1)
    && Sum(c.gaps) == Pieces(Length(r, geo))
    && Times(Pieces(Length(r, geo)), c.unit) == Length(r, geo)
    && Distinct(c.verts)
    && (forall i :: 0 < i < |c.gaps| ==> c.verts[i] !in adj0)
  }

  // Between x and y road r has an edge of the graph, as long as g pieces.
  ghost predicate StepLaid(r: Road, x: Vertex, y: Vertex, g: int, unit: real, adj0: Adj, adj: Adj, geo: Geometry, on: map<Road, Road>)
    requires r.0 in adj0
  {
    var road := RoadOf(adj0[r.0], r.1);
    && x in adj && y in adj && Edge(y, road) in adj[x] && Edge(x, road) in adj[y]
    && geo.Between(x, y) == Times(g, unit)
    && (x, y) in on && on[(x, y)] == r && (y, x) in on && on[(y, x)] == r
  }

  // So has step i of its chain.
  ghost predicate Laid(r: Road, c: Chain, i: nat, adj0: Adj, adj: Adj, geo: Geometry, on: map<Road, Road>)
    requires |c.verts| == |c.gaps| + 1 && i < |c.gaps| && r.0 in adj0
  {
    StepLaid(r, c.verts[i], c.verts[i + 1], c.gaps[i], c.unit, adj0, adj, geo, on)
  }

  ghost predicate Joins(c: Chain, i: nat, x: Vertex, y: Vertex)
    requires |c.verts| == |c.gaps| + 1
  {
    i < |c.gaps| && ((c.verts[i] == x && c.verts[i + 1] == y) || (c.verts[i] == y && c.verts[i + 1] == x))
  }

  ghost predicate Covered(plan: Plan, x: Vertex, y: Vertex) {
    && (x, y) in plan.on && plan.on[(x, y)] in plan.chains
    && var c := plan.chains[plan.on[(x, y)]];
      |c.verts| == |c.gaps| + 1 && exists i :: Joins(c, i, x, y)
  }

  ghost predicate ChainsFit(chains: map<Road, Chain>, adj0: Adj, geo: Geometry) {
    forall r :: r in chains ==> r.0 in adj0 && HasEdge(adj0[r.0], r.1) && Fits(r, chains[r], adj0, geo)
  }

  ghost predicate ChainsLaid(chains: map<Road, Chain>, on: map<Road, Road>, adj0: Adj, adj: Adj, geo: Geometry)
    requires ChainsFit(chains, adj0, geo)
  {
    forall r, i: nat {:trigger Laid(r, chains[r], i, adj0, adj, geo, on)} ::
      r in chains && i < |chains[r].gaps| ==> Laid(r, chains[r], i, adj0, adj, geo, on)
  }

  ghost predicate AllCovered(plan: Plan, adj: Adj) {
    forall v, e :: v in adj && e in adj[v] ==> Covered(plan, v, e.vertex)
  }

  ghost predicate PlanHolds(plan: Plan, adj0: Adj, adj: Adj, geo: Geometry) {
    ChainsFit(plan.chains, adj0, geo) && ChainsLaid(plan.chains, plan.on, adj0, adj, geo) && AllCovered(plan, adj)
  }

  // ---- a cut, seen from the chain of its road ----

  ghost function Spliced(c: Chain, i: nat, temp: Vertex, forward: bool): Chain
    requires |c.verts| == |c.gaps| + 1 && i < |c.gaps|
  {
    var g := c.gaps[i];
    Chain(c.verts[..i + 1] + [temp] + c.verts[i + 1..],
          c.gaps[..i] + (if forward then [1, g - 1] else [g - 1, 1]) + c.gaps[i + 1..],
          c.unit)
  }

  lemma {:induction false} SumConcat(a: seq<int>, b: seq<int>)
    ensures Sum(a + b) == Sum(a) + Sum(b)
  {
    if a == [] {
      assert a + b == b;
    } else {
      assert (a + b)[1..] == a[1..] + b;
      SumConcat(a[1..], b);
    }
  }

  lemma SumOfTwo(x: int, y: int)
    ensures Sum([x, y]) == x + y && Sum([x + y]) == x + y
  {
    assert [x, y][1..] == [y];
    assert Sum([y]) == y;
  }

  lemma {:induction false} GapBound(gaps: seq<int>, i: nat)
    requires i < |gaps| && forall k :: 0 <= k < |gaps| ==> gaps[k] >= 1
    ensures gaps[i] <= Sum(gaps) && (|gaps| > 1 ==> gaps[i] < Sum(gaps))
  {
    if i > 0 {
      GapBound(gaps[1..], i - 1);
    } else if |gaps| > 1 {
      GapBound(gaps[1..], 0);
    }
  }

  lemma SplicedSum(c: Chain, i: nat, temp: Vertex, forward: bool)
    requires |c.verts| == |c.gaps| + 1 && i < |c.gaps|
    ensures Sum(Spliced(c, i, temp, forward).gaps) == Sum(c.gaps)
  {
    var g := c.gaps[i];
    var two := if forward then [1, g - 1] else [g - 1, 1];
    assert c.gaps == c.gaps[..i] + ([g] + c.gaps[i + 1..]);
    SumConcat(c.gaps[..i], [g] + c.gaps[i + 1..]);
    SumConcat([g], c.gaps[i + 1..]);
    SumConcat(c.gaps[..i] + two, c.gaps[i + 1..]);
    SumConcat(c.gaps[..i], two);
    SumOfTwo(two[0], two[1]);
    assert two == [two[0], two[1]];
  }

  lemma SplicedFits(r: Road, c: Chain, i: nat, temp: Vertex, forward: bool, adj0: Adj, geo: Geometry)
    requires Fits(r, c, adj0, geo) && i < |c.gaps| && c.gaps[i] >= 2
    requires temp !in c.verts && temp !in adj0
    ensures Fits(r, Spliced(c, i, temp, forward), adj0, geo)
  {
    SplicedSum(c, i, temp, forward);
    Inserted(c.verts, i + 1, temp);
  }

  // The directed pairs that a cut changes.
  ghost function Recorded(on: map<Road, Road>, from: Vertex, to: Vertex, temp: Vertex, r: Road): map<Road, Road> {
    on[(from, temp) := r][(temp, from) := r][(temp, to) := r][(to, temp) := r]
  }

  // An edge other than the one that is cut stays.
  lemma CutKeeps(adj: Adj, from: Vertex, to: Vertex, temp: Vertex, road: int, x: Vertex, e: Edge)
    requires from in adj && to in adj && temp !in adj && from != to && x in adj && e in adj[x]
    requires !(x == from && e.vertex == to) && !(x == to && e.vertex == from)
    ensures e in Cut(adj, from, to, temp, road)[x]
  {
    CutLists(adj, from, to, temp, road);
    WithoutMembers(adj[from], to);
    WithoutMembers(adj[to], from);
  }

  // Nothing else appears.
  lemma CutAdds(adj: Adj, from: Vertex, to: Vertex, temp: Vertex, road: int, x: Vertex, e: Edge)
    requires Simple(adj) && from in adj && to in adj && temp !in adj && from != to
    requires x in Cut(adj, from, to, temp, road) && e in Cut(adj, from, to, temp, road)[x]
    ensures x == temp ==> e == Edge(from, road) || e == Edge(to, road)
    ensures x != temp && e.vertex == temp ==> (x == from || x == to) && e.roadId == road
    ensures x != temp && e.vertex != temp ==>
      x in adj && e in adj[x] && !(x == from && e.vertex == to) && !(x == to && e.vertex == from)
  {
    CutLists(adj, from, to, temp, road);
    WithoutMembers(adj[from], to);
    WithoutMembers(adj[to], from);
    WithoutUnique(adj[from], to);
    WithoutUnique(adj[to], from);
    if x != temp && e.vertex == temp {
      assert e !in adj[x];
    }
  }

  // A step of a chain that is too long stands for at least two pieces; cutting it takes one off.
  lemma LongGap(r: Road, c: Chain, i: nat, adj0: Adj, geo: Geometry, d: real, unit: real)
    requires Fits(r, c, adj0, geo) && i < |c.gaps|
    requires d == Times(c.gaps[i], c.unit) && d > MAX_DIST && Times(Pieces(d), unit) == d
    ensures c.gaps[i] >= 2 && unit == c.unit && d - unit == Times(c.gaps[i] - 1, c.unit)
  {
    GapBound(c.gaps, i);
    GapOfLength(Length(r, geo), c.gaps[i], c.unit);
    UnitOf(c.gaps[i], unit, d);
    UnitOf(c.gaps[i], c.unit, d);
  }

  // g pieces of a road of length l in a row are g pieces again, and long if g is more than one.
  lemma GapOfLength(l: real, g: int, unit: real)
    requires 1 <= g <= Pieces(l) && Times(Pieces(l), unit) == l
    ensures l > MAX_DIST || g == 1
    ensures Pieces(Times(g, unit)) == g
  {
    UnitOf(Pieces(l), unit, l);
    TimesIsProduct(g, unit);
    if l > MAX_DIST { PieceLength(l, g); }
  }

  lemma KeptLaid(r: Road, c: Chain, i: nat, adj0: Adj, adj: Adj, geo: Geometry, on: map<Road, Road>,
                 from: Vertex, to: Vertex, temp: Vertex, road: int, r': Road)
    requires |c.verts| == |c.gaps| + 1 && i < |c.gaps| && r.0 in adj0
    requires from in adj && to in adj && temp !in adj && from != to
    requires Laid(r, c, i, adj0, adj, geo, on) && !Joins(c, i, from, to)
    ensures Laid(r, c, i, adj0, Cut(adj, from, to, temp, road), geo, Recorded(on, from, to, temp, r'))
  {
    var x, y, rd := c.verts[i], c.verts[i + 1], RoadOf(adj0[r.0], r.1);
    CutLists(adj, from, to, temp, road);
    CutKeeps(adj, from, to, temp, road, x, Edge(y, rd));
    CutKeeps(adj, from, to, temp, road, y, Edge(x, rd));
  }

  // The cut of step i of road r, with everything the lemmas below need to know about it.
  ghost predicate CutOf(r: Road, c: Chain, i: nat, forward: bool, adj0: Adj, adj: Adj, geo: Geometry, on: map<Road, Road>,
                        from: Vertex, to: Vertex, temp: Vertex, road: int)
  {
    && r.0 in adj0 && Fits(r, c, adj0, geo) && i < |c.gaps| && c.gaps[i] >= 2
    && Laid(r, c, i, adj0, adj, geo, on)
    && (if forward then c.verts[i] == from && c.verts[i + 1] == to else c.verts[i] == to && c.verts[i + 1] == from)
    && from in adj && to in adj && from != to && temp !in adj && temp !in adj0 && temp !in c.verts
    && road == RoadOf(adj0[r.0], r.1)
    && geo.Between(from, temp) == c.unit && geo.Between(temp, from) == c.unit
    && geo.Between(temp, to) == Times(c.gaps[i] - 1, c.unit)
    && geo.Between(to, temp) == Times(c.gaps[i] - 1, c.unit)
  }

  lemma SplicedLaid(r: Road, c: Chain, i: nat, forward: bool, adj0: Adj, adj: Adj, geo: Geometry, on: map<Road, Road>,
                    from: Vertex, to: Vertex, temp: Vertex, road: int, j: nat)
    requires CutOf(r, c, i, forward, adj0, adj, geo, on, from, to, temp, road) && j <= |c.gaps|
    requires forall k: nat {:trigger Laid(r, c, k, adj0, adj, geo, on)} :: k < |c.gaps| ==> Laid(r, c, k, adj0, adj, geo, on)
    ensures Laid(r, Spliced(c, i, temp, forward), j, adj0, Cut(adj, from, to, temp, road), geo,
                 Recorded(on, from, to, temp, r))
  {
    hide StepLaid, Spliced, Cut, Recorded, Times;
    if j < i || j > i + 1 {
      var k := if j < i then j else j - 1;
      OtherStep(c, i, k, from, to);
      KeptLaid(r, c, k, adj0, adj, geo, on, from, to, temp, road, r);
      SplicedOld(c, i, temp, forward, k);
    } else {
      SplicedNew(c, i, temp, forward);
      NewLaid(r, c, i, forward, adj0, adj, geo, on, from, to, temp, road);
    }
  }

  lemma SplicedOld(c: Chain, i: nat, temp: Vertex, forward: bool, k: nat)
    requires |c.verts| == |c.gaps| + 1 && i < |c.gaps| && k < |c.gaps| && k != i
    ensures var c' := Spliced(c, i, temp, forward); var j := if k < i then k else k + 1;
      && |c'.verts| == |c'.gaps| + 1 == |c.gaps| + 2 && c'.unit == c.unit
      && c'.verts[j] == c.verts[k] && c'.verts[j + 1] == c.verts[k + 1] && c'.gaps[j] == c.gaps[k]
  {
  }

  lemma SplicedNew(c: Chain, i: nat, temp: Vertex, forward: bool)
    requires |c.verts| == |c.gaps| + 1 && i < |c.gaps|
    ensures var c' := Spliced(c, i, temp, forward);
      && |c'.verts| == |c'.gaps| + 1 == |c.gaps| + 2 && c'.unit == c.unit
      && c'.verts[i] == c.verts[i] && c'.verts[i + 1] == temp && c'.verts[i + 2] == c.verts[i + 1]
      && c'.gaps[i] == (if forward then 1 else c.gaps[i] - 1)
      && c'.gaps[i + 1] == (if forward then c.gaps[i] - 1 else 1)
  {
  }

  lemma NewLaid(r: Road, c: Chain, i: nat, forward: bool, adj0: Adj, adj: Adj, geo: Geometry, on: map<Road, Road>,
                from: Vertex, to: Vertex, temp: Vertex, road: int)
    requires CutOf(r, c, i, forward, adj0, adj, geo, on, from, to, temp, road)
    ensures var c' := Spliced(c, i, temp, forward);
            var adj' := Cut(adj, from, to, temp, road); var on' := Recorded(on, from, to, temp, r);
      Laid(r, c', i, adj0, adj', geo, on') && Laid(r, c', i + 1, adj0, adj', geo, on')
  {
    hide StepLaid, Spliced, Cut, Recorded, Times;
    SplicedNew(c, i, temp, forward);
    NewSteps(r, c.unit, c.gaps[i], adj0, adj, geo, on, from, to, temp, road);
  }

  lemma NewSteps(r: Road, unit: real, g: int, adj0: Adj, adj: Adj, geo: Geometry, on: map<Road, Road>,
                 from: Vertex, to: Vertex, temp: Vertex, road: int)
    requires r.0 in adj0 && road == RoadOf(adj0[r.0], r.1) && from in adj && to in adj && temp !in adj && from != to
    requires geo.Between(from, temp) == geo.Between(temp, from) == unit
    requires geo.Between(temp, to) == geo.Between(to, temp) == Times(g - 1, unit)
    ensures var adj', on' := Cut(adj, from, to, temp, road), Recorded(on, from, to, temp, r);
      && StepLaid(r, from, temp, 1, unit, adj0, adj', geo, on') && StepLaid(r, temp, from, 1, unit, adj0, adj', geo, on')
      && StepLaid(r, temp, to, g - 1, unit, adj0, adj', geo, on') && StepLaid(r, to, temp, g - 1, unit, adj0, adj', geo, on')
  {
    hide Cut, Times, Recorded;
    OneUnit(unit);
    RecordedRoads(on, from, to, temp, r);
    NewEdges(adj, from, to, temp, road);
  }

  lemma OneUnit(unit: real)
    ensures Times(1, unit) == unit
  {
    assert Times(1, unit) == unit + Times(0, unit);
  }

  lemma NewEdges(adj: Adj, from: Vertex, to: Vertex, temp: Vertex, road: int)
    requires from in adj && to in adj && temp !in adj && from != to
    ensures var adj' := Cut(adj, from, to, temp, road);
      && from in adj' && to in adj' && temp in adj'
      && Edge(temp, road) in adj'[from] && Edge(temp, road) in adj'[to]
      && Edge(to, road) in adj'[temp] && Edge(from, road) in adj'[temp]
  {
    hide Cut;
    CutLists(adj, from, to, temp, road);
  }

  lemma RecordedRoads(on: map<Road, Road>, from: Vertex, to: Vertex, temp: Vertex, r: Road)
    ensures var on' := Recorded(on, from, to, temp, r);
      && (from, temp) in on' && (temp, from) in on' && (temp, to) in on' && (to, temp) in on'
      && on'[(from, temp)] == on'[(temp, from)] == on'[(temp, to)] == on'[(to, temp)] == r
    ensures var on' := Recorded(on, from, to, temp, r); forall x, y {:trigger (x, y)} :: x != temp && y != temp ==>
      ((x, y) in on' <==> (x, y) in on) && ((x, y) in on ==> on'[(x, y)] == on[(x, y)])
  {
  }

  lemma OtherStep(c: Chain, i: nat, k: nat, x: Vertex, y: Vertex)
    requires |c.verts| == |c.gaps| + 1 && Distinct(c.verts) && k < |c.gaps| && k != i && Joins(c, i, x, y)
    ensures !Joins(c, k, x, y)
  {
    DiffersFromOthers(c.verts, i);
    DiffersFromOthers(c.verts, i + 1);
  }

  lemma SplicedJoins(c: Chain, i: nat, forward: bool, temp: Vertex, j: nat, x: Vertex, y: Vertex)
    requires |c.verts| == |c.gaps| + 1 && i < |c.gaps| && Joins(c, j, x, y) && j != i
    ensures Joins(Spliced(c, i, temp, forward), if j < i then j else j + 1, x, y)
  {
    var c' := Spliced(c, i, temp, forward);
    var k := if j < i then j else j + 1;
    assert c'.verts[k] == c.verts[j] && c'.verts[k + 1] == c.verts[j + 1];
  }

  lemma TempIsNew(r: Road, c: Chain, adj0: Adj, adj: Adj, geo: Geometry, on: map<Road, Road>, temp: Vertex)
    requires r.0 in adj0 && Fits(r, c, adj0, geo) && temp !in adj
    requires forall k: nat {:trigger Laid(r, c, k, adj0, adj, geo, on)} :: k < |c.gaps| ==> Laid(r, c, k, adj0, adj, geo, on)
    ensures temp !in c.verts
  {
    forall k | 0 <= k < |c.verts|
      ensures c.verts[k] != temp
    {
      assert Laid(r, c, if k == 0 then 0 else k - 1, adj0, adj, geo, on);
    }
  }

  lemma CutRoad(r: Road, c: Chain, i: nat, adj0: Adj, adj: Adj, geo: Geometry, on: map<Road, Road>, from: Vertex, to: Vertex)
    requires |c.verts| == |c.gaps| + 1 && Joins(c, i, from, to) && r.0 in adj0 && Laid(r, c, i, adj0, adj, geo, on)
    requires Simple(adj) && from in adj && HasEdge(adj[from], to)
    ensures RoadOf(adj[from], to) == RoadOf(adj0[r.0], r.1)
  {
    UniqueEdge(adj[from], Edge(to, RoadOf(adj[from], to)), Edge(to, RoadOf(adj0[r.0], r.1)));
  }

  // The edge that is to be cut, found in the plan.
  lemma FindCut(plan: Plan, adj0: Adj, adj: Adj, cut: CutRecord, geo: Geometry)
    returns (r: Road, i: nat, forward: bool)
    requires PlanHolds(plan, adj0, adj, geo) && Simple(adj) && adj0.Keys <= adj.Keys && ValidCut(adj, cut, geo)
    ensures r in plan.chains && (cut.from, cut.to) in plan.on && r == plan.on[(cut.from, cut.to)]
    ensures CutOf(r, plan.chains[r], i, forward, adj0, adj, geo, plan.on, cut.from, cut.to, cut.temp,
                  RoadOf(adj[cut.from], cut.to))
  {
    hide HasEdge, Simple, Covered;
    r, i := FindStep(plan, adj0, adj, cut.from, cut.to, geo);
    var c := plan.chains[r];
    forward := c.verts[i] == cut.from && c.verts[i + 1] == cut.to;
    TempIsNew(r, c, adj0, adj, geo, plan.on, cut.temp);
    CutRoad(r, c, i, adj0, adj, geo, plan.on, cut.from, cut.to);
    LongGap(r, c, i, adj0, geo, geo.Between(cut.from, cut.to), cut.unit);
    NotAnEnd(adj, cut.from, cut.to);
  }

  lemma FindStep(plan: Plan, adj0: Adj, adj: Adj, from: Vertex, to: Vertex, geo: Geometry) returns (r: Road, i: nat)
    requires PlanHolds(plan, adj0, adj, geo) && from in adj && HasEdge(adj[from], to)
    ensures r in plan.chains && (from, to) in plan.on && r == plan.on[(from, to)]
    ensures r.0 in adj0 && Fits(r, plan.chains[r], adj0, geo)
    ensures Joins(plan.chains[r], i, from, to) && Laid(r, plan.chains[r], i, adj0, adj, geo, plan.on)
  {
    assert Edge(to, RoadOf(adj[from], to)) in adj[from] && Covered(plan, from, to);
    r := plan.on[(from, to)];
    i :| Joins(plan.chains[r], i, from, to);
    assert Laid(r, plan.chains[r], i, adj0, adj, geo, plan.on);
  }

  lemma CutMovesChains(plan: Plan, adj0: Adj, adj: Adj, from: Vertex, to: Vertex, temp: Vertex, geo: Geometry, road: int,
                       r: Road, i: nat, forward: bool, chains: map<Road, Chain>, r2: Road, j: nat)
    requires PlanHolds(plan, adj0, adj, geo) && r in plan.chains && (from, to) in plan.on && r == plan.on[(from, to)]
    requires CutOf(r, plan.chains[r], i, forward, adj0, adj, geo, plan.on, from, to, temp, road)
    requires chains == plan.chains[r := Spliced(plan.chains[r], i, temp, forward)]
    requires r2 in chains && |chains[r2].verts| == |chains[r2].gaps| + 1 && j < |chains[r2].gaps|
    ensures Laid(r2, chains[r2], j, adj0, Cut(adj, from, to, temp, road), geo, Recorded(plan.on, from, to, temp, r))
  {
    if r2 == r {
      SplicedLaid(r, plan.chains[r], i, forward, adj0, adj, geo, plan.on, from, to, temp, road, j);
    } else {
      assert Laid(r2, chains[r2], j, adj0, adj, geo, plan.on);
      KeptLaid(r2, chains[r2], j, adj0, adj, geo, plan.on, from, to, temp, road, r);
    }
  }

  lemma CutStaysCovered(plan: Plan, adj0: Adj, adj: Adj, from: Vertex, to: Vertex, temp: Vertex, geo: Geometry, road: int,
                        r: Road, i: nat, forward: bool, plan': Plan, v: Vertex, e: Edge)
    requires PlanHolds(plan, adj0, adj, geo) && Simple(adj)
    requires r in plan.chains && (from, to) in plan.on && r == plan.on[(from, to)]
    requires CutOf(r, plan.chains[r], i, forward, adj0, adj, geo, plan.on, from, to, temp, road)
    requires plan' == Plan(plan.chains[r := Spliced(plan.chains[r], i, temp, forward)], Recorded(plan.on, from, to, temp, r))
    requires v in Cut(adj, from, to, temp, road) && e in Cut(adj, from, to, temp, road)[v]
    ensures Covered(plan', v, e.vertex)
  {
    hide Laid, Spliced, Recorded, Cut, Covered, Simple, ChainsLaid;
    CutAdds(adj, from, to, temp, road, v, e);
    if v == temp || e.vertex == temp {
      NewCovered(plan, r, i, forward, from, to, temp, plan', v, e.vertex);
    } else {
      OldCovered(plan, r, i, forward, from, to, temp, plan', v, e.vertex);
    }
  }

  // The two steps at the new vertex.
  lemma NewCovered(plan: Plan, r: Road, i: nat, forward: bool, from: Vertex, to: Vertex, temp: Vertex, plan': Plan, x: Vertex, y: Vertex)
    requires r in plan.chains && var c := plan.chains[r];
      && |c.verts| == |c.gaps| + 1 && i < |c.gaps|
      && (if forward then c.verts[i] == from && c.verts[i + 1] == to else c.verts[i] == to && c.verts[i + 1] == from)
    requires plan' == Plan(plan.chains[r := Spliced(plan.chains[r], i, temp, forward)], Recorded(plan.on, from, to, temp, r))
    requires (x == temp && (y == from || y == to)) || (y == temp && (x == from || x == to))
    ensures Covered(plan', x, y)
  {
    hide Spliced, Recorded;
    SplicedNew(plan.chains[r], i, temp, forward);
    RecordedRoads(plan.on, from, to, temp, r);
    var end := if x == temp then y else x;
    assert Joins(plan'.chains[r], if (end == from) == forward then i else i + 1, x, y);
  }

  // A step between old vertices, which may have moved on by one.
  lemma OldCovered(plan: Plan, r: Road, i: nat, forward: bool, from: Vertex, to: Vertex, temp: Vertex, plan': Plan, x: Vertex, y: Vertex)
    requires r in plan.chains && var c := plan.chains[r]; |c.verts| == |c.gaps| + 1 && i < |c.gaps| && Joins(c, i, from, to)
    requires plan' == Plan(plan.chains[r := Spliced(plan.chains[r], i, temp, forward)], Recorded(plan.on, from, to, temp, r))
    requires x != temp && y != temp && Covered(plan, x, y) && !(x == from && y == to) && !(x == to && y == from)
    ensures Covered(plan', x, y)
  {
    hide Spliced, Recorded;
    var c := plan.chains[r];
    RecordedRoads(plan.on, from, to, temp, r);
    SplicedNew(c, i, temp, forward);
    var r2 := plan.on[(x, y)];
    var j: nat :| Joins(plan.chains[r2], j, x, y);
    if r2 == r {
      SplicedJoins(c, i, forward, temp, j, x, y);
    } else {
      assert Joins(plan'.chains[r2], j, x, y);
    }
  }

  lemma AllMoved(plan: Plan, adj0: Adj, adj: Adj, from: Vertex, to: Vertex, temp: Vertex, geo: Geometry, road: int,
                 r: Road, i: nat, forward: bool, plan': Plan, adj': Adj)
    requires PlanHolds(plan, adj0, adj, geo) && r in plan.chains && (from, to) in plan.on && r == plan.on[(from, to)]
    requires CutOf(r, plan.chains[r], i, forward, adj0, adj, geo, plan.on, from, to, temp, road)
    requires plan' == Plan(plan.chains[r := Spliced(plan.chains[r], i, temp, forward)], Recorded(plan.on, from, to, temp, r))
    requires adj' == Cut(adj, from, to, temp, road)
    ensures ChainsFit(plan'.chains, adj0, geo) && ChainsLaid(plan'.chains, plan'.on, adj0, adj', geo)
  {
    AllFit(plan, adj0, adj, from, to, temp, geo, road, r, i, forward, plan'.chains);
    hide CutOf, Laid, Spliced, Recorded, Cut, AllCovered, PlanHolds, HasEdge;
    forall r2, j: nat {:trigger Laid(r2, plan'.chains[r2], j, adj0, adj', geo, plan'.on)}
      | r2 in plan'.chains && j < |plan'.chains[r2].gaps|
      ensures Laid(r2, plan'.chains[r2], j, adj0, adj', geo, plan'.on)
    {
      CutMovesChains(plan, adj0, adj, from, to, temp, geo, road, r, i, forward, plan'.chains, r2, j);
    }
  }

  lemma AllFit(plan: Plan, adj0: Adj, adj: Adj, from: Vertex, to: Vertex, temp: Vertex, geo: Geometry, road: int,
               r: Road, i: nat, forward: bool, chains: map<Road, Chain>)
    requires PlanHolds(plan, adj0, adj, geo) && r in plan.chains
    requires CutOf(r, plan.chains[r], i, forward, adj0, adj, geo, plan.on, from, to, temp, road)
    requires chains == plan.chains[r := Spliced(plan.chains[r], i, temp, forward)]
    ensures ChainsFit(chains, adj0, geo)
  {
    hide Laid, Spliced, HasEdge, ChainsLaid, AllCovered;
    SplicedFits(r, plan.chains[r], i, temp, forward, adj0, geo);
    hide Fits;
  }

  // A cut keeps the plan: one chain gets one vertex longer.
  lemma PlanStep(plan: Plan, adj0: Adj, adj: Adj, c: CutRecord, geo: Geometry) returns (plan': Plan)
    requires PlanHolds(plan, adj0, adj, geo) && Simple(adj) && adj0.Keys <= adj.Keys && ValidCut(adj, c, geo)
    ensures PlanHolds(plan', adj0, CutBy(adj, c), geo)
    ensures plan'.chains.Keys == plan.chains.Keys
  {
    var road := RoadOf(adj[c.from], c.to);
    var r, i, forward := FindCut(plan, adj0, adj, c, geo);
    hide CutOf, Spliced, Recorded, Cut, ChainsFit, ChainsLaid, Covered, Simple;
    plan' := SplicedPlan(plan, adj0, adj, geo, r, i, forward, c.from, c.to, c.temp, road);
    AllMoved(plan, adj0, adj, c.from, c.to, c.temp, geo, road, r, i, forward, plan', CutBy(adj, c));
    forall v: Vertex, e: Edge | v in CutBy(adj, c) && e in CutBy(adj, c)[v]
      ensures Covered(plan', v, e.vertex)
    {
      CutStaysCovered(plan, adj0, adj, c.from, c.to, c.temp, geo, road, r, i, forward, plan', v, e);
    }
  }

  ghost function SplicedPlan(plan: Plan, adj0: Adj, adj: Adj, geo: Geometry, r: Road, i: nat, forward: bool,
                             from: Vertex, to: Vertex, temp: Vertex, road: int): (plan': Plan)
    requires r in plan.chains && CutOf(r, plan.chains[r], i, forward, adj0, adj, geo, plan.on, from, to, temp, road)
    ensures plan'.chains.Keys == plan.chains.Keys
  {
    Plan(plan.chains[r := Spliced(plan.chains[r], i, temp, forward)], Recorded(plan.on, from, to, temp, r))
  }

  // ---- the first plan and the last ----

  ghost predicate Before(order: seq<Vertex>, x: Vertex, y: Vertex) {
    exists i, j :: 0 <= i < j < |order| && order[i] == x && order[j] == y
  }

  ghost function FirstChain(r: Road, geo: Geometry): Chain {
    Chain([r.0, r.1], [Pieces(Length(r, geo))], Length(r, geo) / Pieces(Length(r, geo)) as real)
  }

  ghost function FirstPlan(order: seq<Vertex>, adj: Adj, geo: Geometry): Plan
  {
    Plan(
      map x, y | x in adj && y in Targets(adj[x]) && Before(order, x, y) :: (x, y) := FirstChain((x, y), geo),
      map x, y | x in adj && y in Targets(adj[x]) :: (x, y) := if Before(order, x, y) then (x, y) else (y, x))
  }

  lemma BeforeOrAfter(order: seq<Vertex>, x: Vertex, y: Vertex)
    requires Distinct(order) && x in order && y in order && x != y
    ensures Before(order, x, y) <==> !Before(order, y, x)
  {
    var i :| 0 <= i < |order| && order[i] == x;
    var j :| 0 <= j < |order| && order[j] == y;
    DiffersFromOthers(order, i);
    DiffersFromOthers(order, j);
    if i < j { assert Before(order, x, y); } else { assert Before(order, y, x); }
  }

  // What the first plan records about an edge between x and y, and about a road.
  ghost predicate EdgeRecorded(plan: Plan, x: Vertex, y: Vertex) {
    (x, y) in plan.on && plan.on[(x, y)] in plan.chains && (plan.on[(x, y)] == (x, y) || plan.on[(x, y)] == (y, x))
  }

  ghost predicate RoadRecorded(plan: Plan, r: Road, adj: Adj, geo: Geometry)
    requires r in plan.chains
  {
    && r.0 in adj && HasEdge(adj[r.0], r.1) && plan.chains[r] == FirstChain(r, geo)
    && (r.0, r.1) in plan.on && plan.on[(r.0, r.1)] == r && (r.1, r.0) in plan.on && plan.on[(r.1, r.0)] == r
  }

  lemma FirstEdges(order: seq<Vertex>, adj: Adj, geo: Geometry, x: Vertex, e: Edge)
    requires Distinct(order) && Simple(adj) && (forall v :: v in adj <==> v in order)
    requires x in adj && e in adj[x]
    ensures EdgeRecorded(FirstPlan(order, adj, geo), x, e.vertex)
  {
    var y := e.vertex;
    BeforeOrAfter(order, x, y);
    assert Edge(x, e.roadId) in adj[y];
    assert x in Targets(adj[y]) && y in Targets(adj[x]);
  }

  lemma FirstRoads(order: seq<Vertex>, adj: Adj, geo: Geometry, r: Road)
    requires Distinct(order) && Simple(adj) && (forall v :: v in adj <==> v in order)
    requires r in FirstPlan(order, adj, geo).chains
    ensures RoadRecorded(FirstPlan(order, adj, geo), r, adj, geo)
  {
    FirstRoadsAreEdges(order, adj, geo, r);
    var e := Edge(r.1, RoadOf(adj[r.0], r.1));
    FirstOn(order, adj, geo, r.0, e);
    BeforeOrAfter(order, r.0, r.1);
  }

  lemma FirstRoadsAreEdges(order: seq<Vertex>, adj: Adj, geo: Geometry, r: Road)
    requires r in FirstPlan(order, adj, geo).chains
    ensures r.0 in adj && HasEdge(adj[r.0], r.1) && Before(order, r.0, r.1)
    ensures FirstPlan(order, adj, geo).chains[r] == FirstChain(r, geo)
  {
  }

  lemma FirstOn(order: seq<Vertex>, adj: Adj, geo: Geometry, x: Vertex, e: Edge)
    requires Simple(adj) && x in adj && e in adj[x]
    ensures var on := FirstPlan(order, adj, geo).on; var y := e.vertex;
      && (x, y) in on && on[(x, y)] == (if Before(order, x, y) then (x, y) else (y, x))
      && (y, x) in on && on[(y, x)] == (if Before(order, y, x) then (y, x) else (x, y))
  {
    assert Edge(x, e.roadId) in adj[e.vertex];
    hide FirstPlan, Before, Simple;
    FirstOneWay(order, adj, geo, x, e);
    FirstOneWay(order, adj, geo, e.vertex, Edge(x, e.roadId));
  }

  lemma FirstOneWay(order: seq<Vertex>, adj: Adj, geo: Geometry, x: Vertex, e: Edge)
    requires x in adj && e in adj[x]
    ensures var on := FirstPlan(order, adj, geo).on; var y := e.vertex;
      (x, y) in on && on[(x, y)] == if Before(order, x, y) then (x, y) else (y, x)
  {
    hide Before;
    assert e.vertex in Targets(adj[x]);
  }

  lemma FirstFits(r: Road, adj: Adj, geo: Geometry)
    requires r.0 != r.1
    ensures Fits(r, FirstChain(r, geo), adj, geo)
  {
    var c := FirstChain(r, geo);
    forall i, j | 0 <= i < j < |c.verts|
      ensures Differ(c.verts, i, j)
    {
    }
    TimesIsProduct(Pieces(Length(r, geo)), c.unit);
  }

  lemma FirstLaid(r: Road, adj: Adj, geo: Geometry, on: map<Road, Road>)
    requires Simple(adj) && r.0 in adj && HasEdge(adj[r.0], r.1)
    requires (r.0, r.1) in on && on[(r.0, r.1)] == r && (r.1, r.0) in on && on[(r.1, r.0)] == r
    ensures Laid(r, FirstChain(r, geo), 0, adj, adj, geo, on)
  {
    var c := FirstChain(r, geo);
    assert Edge(r.1, RoadOf(adj[r.0], r.1)) in adj[r.0];
    TimesIsProduct(c.gaps[0], c.unit);
  }

  // Every edge has a road in one direction.
  ghost predicate EveryEdgePlanned(adj: Adj, roads: set<Road>) {
    forall v, e :: v in adj && e in adj[v] ==> (v, e.vertex) in roads || (e.vertex, v) in roads
  }

  lemma FirstPlanHolds(order: seq<Vertex>, adj: Adj, geo: Geometry)
    requires Distinct(order) && Simple(adj) && (forall v :: v in adj <==> v in order)
    ensures PlanHolds(FirstPlan(order, adj, geo), adj, adj, geo)
    ensures EveryEdgePlanned(adj, FirstPlan(order, adj, geo).chains.Keys)
  {
    var plan := FirstPlan(order, adj, geo);
    forall v: Vertex, e: Edge | v in adj && e in adj[v]
      ensures EdgeRecorded(plan, v, e.vertex)
    {
      FirstEdges(order, adj, geo, v, e);
    }
    forall r | r in plan.chains
      ensures RoadRecorded(plan, r, adj, geo)
    {
      FirstRoads(order, adj, geo, r);
    }
    RecordedHolds(plan, adj, geo);
  }

  lemma RecordedHolds(plan: Plan, adj: Adj, geo: Geometry)
    requires Simple(adj)
    requires forall v, e :: v in adj && e in adj[v] ==> EdgeRecorded(plan, v, e.vertex)
    requires forall r :: r in plan.chains ==> RoadRecorded(plan, r, adj, geo)
    ensures PlanHolds(plan, adj, adj, geo)
  {
    forall v: Vertex, e: Edge | v in adj && e in adj[v]
      ensures Covered(plan, v, e.vertex)
    {
      assert EdgeRecorded(plan, v, e.vertex);
      RecordedCovers(plan, adj, geo, v, e.vertex);
    }
    forall r | r in plan.chains
      ensures r.0 in adj && HasEdge(adj[r.0], r.1) && Fits(r, plan.chains[r], adj, geo)
    {
      RecordedRoad(plan, r, adj, geo, 0);
    }
    forall r, i: nat {:trigger Laid(r, plan.chains[r], i, adj, adj, geo, plan.on)}
      | r in plan.chains && i < |plan.chains[r].gaps|
      ensures Laid(r, plan.chains[r], i, adj, adj, geo, plan.on)
    {
      RecordedRoad(plan, r, adj, geo, i);
    }
  }

  lemma RecordedRoad(plan: Plan, r: Road, adj: Adj, geo: Geometry, i: nat)
    requires Simple(adj) && r in plan.chains && RoadRecorded(plan, r, adj, geo)
    ensures r.0 in adj && HasEdge(adj[r.0], r.1) && Fits(r, plan.chains[r], adj, geo)
    ensures i < |plan.chains[r].gaps| ==> Laid(r, plan.chains[r], i, adj, adj, geo, plan.on)
  {
    assert Edge(r.1, RoadOf(adj[r.0], r.1)) in adj[r.0];
    FirstFits(r, adj, geo);
    FirstLaid(r, adj, geo, plan.on);
  }

  lemma RecordedCovers(plan: Plan, adj: Adj, geo: Geometry, x: Vertex, y: Vertex)
    requires EdgeRecorded(plan, x, y) && RoadRecorded(plan, plan.on[(x, y)], adj, geo)
    ensures Covered(plan, x, y)
  {
    assert Joins(plan.chains[plan.on[(x, y)]], 0, x, y);
  }

  ghost predicate AllShort(adj: Adj, geo: Geometry) {
    forall v, e :: v in adj && e in adj[v] ==> geo.Between(v, e.vertex) <= MAX_DIST
  }

  // ---- sequences of cuts ----

  // The graph after the cuts; a cut that is not valid where it comes changes nothing.
  ghost function AfterCuts(adj0: Adj, cuts: seq<CutRecord>, geo: Geometry): Adj {
    if cuts == [] then adj0
    else
      var n := |cuts| - 1;
      var mid := AfterCuts(adj0, cuts[..n], geo);
      if ValidCut(mid, cuts[n], geo) then CutBy(mid, cuts[n]) else mid
  }

  ghost predicate ValidCuts(adj0: Adj, cuts: seq<CutRecord>, geo: Geometry) {
    cuts == [] ||
    (var n := |cuts| - 1; ValidCuts(adj0, cuts[..n], geo) && ValidCut(AfterCuts(adj0, cuts[..n], geo), cuts[n], geo))
  }

  // The cuts lead from adj0 to adj.
  ghost predicate CutSequence(adj0: Adj, cuts: seq<CutRecord>, adj: Adj, geo: Geometry) {
    ValidCuts(adj0, cuts, geo) && adj == AfterCuts(adj0, cuts, geo)
  }

  lemma OneMoreCut(adj0: Adj, cuts: seq<CutRecord>, mid: Adj, c: CutRecord, geo: Geometry)
    requires CutSequence(adj0, cuts, mid, geo) && ValidCut(mid, c, geo)
    ensures CutSequence(adj0, cuts + [c], CutBy(mid, c), geo)
  {
    var all := cuts + [c];
    assert all[..|cuts|] == cuts && all[|all| - 1] == c;
    hide ValidCut, CutBy;
  }

  lemma CutSimple(adj: Adj, c: CutRecord, geo: Geometry)
    requires Simple(adj) && ValidCut(adj, c, geo)
    ensures Simple(CutBy(adj, c))
  {
    var road := RoadOf(adj[c.from], c.to);
    var adj1 := adj[c.temp := []];
    NotAnEnd(adj, c.from, c.to);
    IsolatedSimple(adj, c.temp);
    LinkSimple(adj1, c.from, c.temp, road);
    var adj2 := Link(adj1, c.from, c.temp, road);
    assert adj2[c.temp] == [Edge(c.from, road)];
    LinkSimple(adj2, c.temp, c.to, road);
    UnlinkSimple(Link(adj2, c.temp, c.to, road), c.from, c.to);
  }

  // Whatever edges are cut and from whichever end, every road stays a chain of its pieces.
  lemma {:induction false} CutsKeepPlan(order0: seq<Vertex>, adj0: Adj, cuts: seq<CutRecord>, adj: Adj, geo: Geometry)
    returns (plan: Plan)
    requires Distinct(order0) && Simple(adj0) && (forall v :: v in adj0 <==> v in order0)
    requires CutSequence(adj0, cuts, adj, geo)
    ensures Simple(adj) && adj0.Keys <= adj.Keys
    ensures PlanHolds(plan, adj0, adj, geo) && EveryEdgePlanned(adj0, plan.chains.Keys)
    decreases |cuts|
  {
    if cuts == [] {
      plan := FirstPlan(order0, adj0, geo);
      FirstPlanHolds(order0, adj0, geo);
    } else {
      var n := |cuts| - 1;
      var mid := AfterCuts(adj0, cuts[..n], geo);
      var before := CutsKeepPlan(order0, adj0, cuts[..n], mid, geo);
      CutSimple(mid, cuts[n], geo);
      plan := PlanStep(before, adj0, mid, cuts[n], geo);
    }
  }

  // The whole subdivision: once the cuts have left no long edge, each edge {u, w} of the original
  // graph is a chain from one end to the other, of exactly Pieces equal edges with its road id.
  lemma Subdivided(order0: seq<Vertex>, adj0: Adj, cuts: seq<CutRecord>, adj: Adj, geo: Geometry, u: Vertex, e: Edge)
    returns (c: Chain, r: Road)
    requires Distinct(order0) && Simple(adj0) && (forall v :: v in adj0 <==> v in order0)
    requires CutSequence(adj0, cuts, adj, geo) && AllShort(adj, geo)
    requires geo.Between(u, e.vertex) == geo.Between(e.vertex, u)
    requires u in adj0 && e in adj0[u]
    ensures r == (u, e.vertex) || r == (e.vertex, u)
    ensures var d := geo.Between(u, e.vertex);
      && |c.gaps| == Pieces(d) && |c.verts| == Pieces(d) + 1 && Distinct(c.verts)
      && c.verts[0] == r.0 && c.verts[Pieces(d)] == r.1
      && (forall i :: 0 < i < Pieces(d) ==> c.verts[i] !in adj0)
      && (forall i :: 0 <= i < Pieces(d) ==> SinglePiece(c, i, adj, e.roadId, geo))
      && c.unit == d / Pieces(d) as real && (d > MAX_DIST ==> 37.5 < c.unit < 62.5)
  {
    var plan := CutsKeepPlan(order0, adj0, cuts, adj, geo);
    r := if (u, e.vertex) in plan.chains then (u, e.vertex) else (e.vertex, u);
    c := plan.chains[r];
    ChainsFinished(plan, adj0, adj, geo, r);
    RoadIdOf(adj0, u, e);
  }

  lemma RoadIdOf(adj: Adj, u: Vertex, e: Edge)
    requires Simple(adj) && u in adj && e in adj[u]
    ensures e.vertex in adj && RoadOf(adj[u], e.vertex) == e.roadId && RoadOf(adj[e.vertex], u) == e.roadId
  {
    var f := Edge(u, e.roadId);
    assert f in adj[e.vertex];
    assert HasEdge(adj[u], e.vertex) && HasEdge(adj[e.vertex], u);
    UniqueEdge(adj[u], e, Edge(e.vertex, RoadOf(adj[u], e.vertex)));
    UniqueEdge(adj[e.vertex], f, Edge(u, RoadOf(adj[e.vertex], u)));
  }

  // Once no edge is long any more, every road of the original graph has become a chain of exactly
  // Pieces equal edges that carry its road id.
  lemma ChainsFinished(plan: Plan, adj0: Adj, adj: Adj, geo: Geometry, r: Road)
    requires PlanHolds(plan, adj0, adj, geo) && AllShort(adj, geo) && r in plan.chains
    ensures r.0 in adj0
    ensures var c := plan.chains[r]; var d := Length(r, geo);
      && |c.gaps| == Pieces(d) && |c.verts| == Pieces(d) + 1 && Distinct(c.verts)
      && c.verts[0] == r.0 && c.verts[Pieces(d)] == r.1
      && (forall i :: 0 < i < Pieces(d) ==> c.verts[i] !in adj0)
      && (forall i :: 0 <= i < Pieces(d) ==> SinglePiece(c, i, adj, RoadOf(adj0[r.0], r.1), geo))
      && c.unit == d / Pieces(d) as real && (d > MAX_DIST ==> 37.5 < c.unit < 62.5)
  {
    var c, d := plan.chains[r], Length(r, geo);
    forall i: nat | i < |c.gaps|
      ensures SinglePiece(c, i, adj, RoadOf(adj0[r.0], r.1), geo)
    {
      assert Laid(r, c, i, adj0, adj, geo, plan.on);
      FinishedStep(r, c, i, adj0, adj, geo, plan.on);
    }
    forall i | 0 <= i < |c.gaps|
      ensures c.gaps[i] == 1
    {
      assert SinglePiece(c, i, adj, RoadOf(adj0[r.0], r.1), geo);
    }
    SumOfOnes(c.gaps);
    UnitOf(Pieces(d), c.unit, d);
    if d > MAX_DIST { PieceLength(d, 1); }
  }

  // Step i of chain c is a single piece: an edge with the given road id, one unit long.
  ghost predicate SinglePiece(c: Chain, i: nat, adj: Adj, road: int, geo: Geometry)
    requires |c.verts| == |c.gaps| + 1 && i < |c.gaps|
  {
    && c.gaps[i] == 1
    && c.verts[i] in adj && Edge(c.verts[i + 1], road) in adj[c.verts[i]]
    && geo.Between(c.verts[i], c.verts[i + 1]) == c.unit
  }

  lemma FinishedStep(r: Road, c: Chain, i: nat, adj0: Adj, adj: Adj, geo: Geometry, on: map<Road, Road>)
    requires Fits(r, c, adj0, geo) && i < |c.gaps| && r.0 in adj0 && Laid(r, c, i, adj0, adj, geo, on) && AllShort(adj, geo)
    ensures SinglePiece(c, i, adj, RoadOf(adj0[r.0], r.1), geo)
  {
    GapIsOne(r, c, i, adj0, geo);
    assert Times(1, c.unit) == c.unit + Times(0, c.unit);
  }

  lemma GapIsOne(r: Road, c: Chain, i: nat, adj0: Adj, geo: Geometry)
    requires Fits(r, c, adj0, geo) && i < |c.gaps| && Times(c.gaps[i], c.unit) <= MAX_DIST
    ensures c.gaps[i] == 1
  {
    GapBound(c.gaps, i);
    GapOfLength(Length(r, geo), c.gaps[i], c.unit);
  }

  lemma {:induction false} SumOfOnes(gaps: seq<int>)
    requires forall i :: 0 <= i < |gaps| ==> gaps[i] == 1
    ensures Sum(gaps) == |gaps|
  {
    if gaps != [] { SumOfOnes(gaps[1..]); }
  }
}
