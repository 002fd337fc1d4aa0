/** graph_division: long road segments are cut while the vertex list and the edge lists are walked. */
module Division {
  import opened Sequences
  import opened RoadGraph
  import opened Segments
  import opened Geometry
  import opened RoadChains

  // What edge_division(from, to) does to the vertex list and the edge lists; temp is the new
  // vertex, null when the segment is short enough.
  ghost predicate Divided(order: seq<Vertex>, adj: Adj, from: Vertex, to: Vertex, temp: Vertex?, unit: real,
                          order': seq<Vertex>, adj': Adj, geo: Geometry)
  {
    if temp == null then geo.Between(from, to) <= MAX_DIST && order' == order && adj' == adj
    else
      var c := CutRecord(from, to, temp, unit);
      ValidCut(adj, c, geo) && order' == order + [temp] && adj' == CutBy(adj, c)
  }

  // edge_division
  method EdgeDivision(graph: Graph, from: Vertex, to: Vertex, geo: Geometry) returns (ghost temp: Vertex?, ghost unit: real)
    requires graph.Valid() && from in graph.vertices && to in graph.vertices && HasEdge(from.edges, to)
    requires Proportional(geo.distance)
    modifies graph, from, to
    ensures graph.Valid()
    ensures temp != null ==>
      && fresh(temp) && temp.pos == Towards(from.pos, to.pos, Pieces(geo.Between(from, to)))
      && temp.id == geo.coordinateString(temp.pos) && temp.geoHash == geo.geoHash(temp.pos) && !temp.isIntersection
    ensures Divided(old(graph.vertices), old(Adjacency(graph.vertices)), from, to, temp, unit,
                    graph.vertices, Adjacency(graph.vertices), geo)
  {
    temp, unit := null, 0.0;
    var dst := geo.Between(from, to);
    if dst > MAX_DIST {
      var a := Round(dst / AVERAGE_DIST);
      var pos := Towards(from.pos, to.pos, a);
      var t := new Vertex(geo.coordinateString(pos), pos, geo.geoHash(pos), false);
      ghost var adj := Adjacency(graph.vertices);
      assert from.edges == adj[from];
      NotAnEnd(adj, from, to);
      ghost var c := TowardsTakesOnePiece(from, to, t, geo);
      graph.AddVertex(t);
      var road := RoadOf(from.edges, to);
      Reroute(from, to, t, road, graph.vertices);
      temp, unit := t, c.unit;
    }
  }

  // The last three calls of edge_division.
  method Reroute(from: Vertex, to: Vertex, temp: Vertex, road: int, ghost all: seq<Vertex>)
    requires WellKept(all) && from in all && to in all && temp in all
    requires from != to && temp != from && temp != to && temp.edges == []
    requires !HasEdge(from.edges, temp)
    modifies from, to, temp
    ensures WellKept(all)
    ensures Adjacency(all) == Unlink(Link(Link(old(Adjacency(all)), from, temp, road), temp, to, road), from, to)
  {
    ghost var adj := Adjacency(all);
    LinkSimple(adj, from, temp, road);
    AddUndirected(from, temp, road, all);
    ghost var adj1 := Link(adj, from, temp, road);
    assert adj1[temp] == [Edge(from, road)];
    LinkSimple(adj1, temp, to, road);
    AddUndirected(temp, to, road, all);
    RemoveUndirected(from, to, all);
  }

  // ---- the walk ----

  // The first n edges of es, listed at v, are short.
  ghost predicate ShortPrefix(v: Vertex, es: seq<Edge>, n: int, geo: Geometry) {
    n <= |es| && forall k :: 0 <= k < n ==> geo.Between(v, es[k].vertex) <= MAX_DIST
  }

  // The vertices before position i have no long edge left.
  ghost predicate DoneShort(order: seq<Vertex>, i: nat, adj: Adj, geo: Geometry) {
    i <= |order| && forall j :: 0 <= j < i ==>
      order[j] in adj && ShortPrefix(order[j], adj[order[j]], |adj[order[j]]|, geo)
  }

  lemma {:induction false} WithoutAt(es: seq<Edge>, k: nat)
    requires Unique(es) && k < |es|
    ensures Without(es, es[k].vertex) == es[..k] + es[k + 1..]
  {
    if k == 0 {
      assert es[..0] + es[1..] == es[1..];
    } else {
      WithoutAt(es[1..], k - 1);
      OneInFront(es, k);
    }
  }

  lemma OneInFront(es: seq<Edge>, k: nat)
    requires 0 < k < |es|
    ensures [es[0]] + (es[1..][..k - 1] + es[1..][k..]) == es[..k] + es[k + 1..]
  {
    assert es[..k] == [es[0]] + es[1..][..k - 1];
    assert es[1..][k..] == es[k + 1..];
  }

  // Cutting the edge at position k of the list being walked: the new edge goes in front, the cut
  // one goes away, and what is still to be walked stays the end of the list.
  lemma CutAhead(adj: Adj, c: CutRecord, k: nat, geo: Geometry)
    requires Simple(adj) && ValidCut(adj, c, geo)
    requires k < |adj[c.from]| && adj[c.from][k].vertex == c.to && ShortPrefix(c.from, adj[c.from], k, geo)
    ensures var es := CutBy(adj, c)[c.from];
      |es| == |adj[c.from]| && es[k + 1..] == adj[c.from][k + 1..] && ShortPrefix(c.from, es, k + 1, geo)
  {
    hide RoadOf, HasEdge, Cut, Without, Unique, Times, Pieces;
    NotAnEnd(adj, c.from, c.to);
    CutLists(adj, c.from, c.to, c.temp, RoadOf(adj[c.from], c.to));
    WithoutAt(adj[c.from], k);
    PiecesAfterCut(geo.Between(c.from, c.to), c.unit);
    AheadOfTheRest(c.from, adj[c.from], k, Edge(c.temp, RoadOf(adj[c.from], c.to)), geo);
  }

  // A short edge put in front of a list that loses the edge at position k.
  lemma AheadOfTheRest(v: Vertex, es: seq<Edge>, k: nat, e: Edge, geo: Geometry)
    requires k < |es| && ShortPrefix(v, es, k, geo) && geo.Between(v, e.vertex) <= MAX_DIST
    ensures var es' := [e] + (es[..k] + es[k + 1..]);
      |es'| == |es| && es'[k + 1..] == es[k + 1..] && ShortPrefix(v, es', k + 1, geo)
  {
  }

  // Vertices already walked are not touched by a cut.
  lemma CutBehind(order: seq<Vertex>, i: nat, adj: Adj, c: CutRecord, geo: Geometry)
    requires Simple(adj) && Distinct(order) && ValidCut(adj, c, geo)
    requires i < |order| && order[i] == c.from && DoneShort(order, i, adj, geo)
    ensures DoneShort(order + [c.temp], i, CutBy(adj, c), geo)
  {
    hide RoadOf, Cut, Without, Unique, Times, Pieces;
    NotAnEnd(adj, c.from, c.to);
    CutLists(adj, c.from, c.to, c.temp, RoadOf(adj[c.from], c.to));
    DiffersFromOthers(order, i);
    EdgeBothWays(adj, c.from, c.to);
    hide Simple, Distinct;
    var k :| 0 <= k < |adj[c.to]| && adj[c.to][k].vertex == c.from;
    forall j | 0 <= j < i
      ensures order[j] != c.to
    {
    }
  }

  // A moment of the walk: the vertex list, the position in it, how many edges of the vertex there
  // are still to be looked at, the edge lists, and the cuts that led to them from adj0.
  datatype Moment = Moment(order: seq<Vertex>, i: nat, left: nat, adj: Adj, adj0: Adj, cuts: seq<CutRecord>, geo: Geometry)
  {
    // No long edge is left behind: the vertices before i are done, and so are the edges of vertex i
    // up to the last left ones.
    ghost predicate Holds() {
      && i <= |order| && Distinct(order) && Simple(adj)
      && (forall v :: v in order ==> v in adj) && (forall v :: v in adj ==> v in order)
      && (i == |order| ==> left == 0)
      && (i < |order| ==> left <= |adj[order[i]]| && ShortPrefix(order[i], adj[order[i]], |adj[order[i]]| - left, geo))
      && DoneShort(order, i, adj, geo) && CutSequence(adj0, cuts, adj, geo)
    }

    // The vertices to visit, and one more for every cut to come.
    ghost function Budget(): nat
      requires Holds()
    {
      |order| + Work(order, adj, geo)
    }

    // The length of the list at position i.
    ghost function ListLength(): nat
      requires Holds()
    {
      if i < |order| then |adj[order[i]]| else 0
    }

    // The edge to look at next.
    ghost function NextEnd(): Vertex
      requires Holds() && left > 0
    {
      adj[order[i]][|adj[order[i]]| - left].vertex
    }
  }

  type Walk = m: Moment | m.Holds()
    ghost witness Moment([], 0, 0, map[], map[], [], Geometry(Manhattan, p => "", p => 0))

  lemma NextEdge(m: Walk)
    requires m.left > 0
    ensures m.i < |m.order| && m.order[m.i] in m.adj && m.left <= |m.adj[m.order[m.i]]|
    ensures m.NextEnd() in m.adj && HasEdge(m.adj[m.order[m.i]], m.NextEnd())
  {
    var es := m.adj[m.order[m.i]];
    assert es[|es| - m.left] in es;
  }

  // Passing a short edge.
  lemma ShortWalks(m: Walk) returns (m': Walk)
    requires m.left > 0 && m.geo.Between(m.order[m.i], m.NextEnd()) <= MAX_DIST
    ensures m' == m.(left := m.left - 1) && m'.Budget() == m.Budget()
  {
    hide Simple, DoneShort, CutSequence, Distinct, Work;
    m' := m.(left := m.left - 1);
  }

  lemma CutKeys(adj: Adj, c: CutRecord, geo: Geometry)
    requires Simple(adj) && ValidCut(adj, c, geo)
    ensures CutBy(adj, c).Keys == adj.Keys + {c.temp} && c.temp !in adj
  {
    NotAnEnd(adj, c.from, c.to);
    CutLists(adj, c.from, c.to, c.temp, RoadOf(adj[c.from], c.to));
  }

  // Cutting a long one.
  lemma CutWalks(m: Walk, c: CutRecord) returns (m': Walk)
    requires m.left > 0 && ValidCut(m.adj, c, m.geo) && c.from == m.order[m.i] && c.to == m.NextEnd()
    ensures m'.order == m.order + [c.temp] && m'.adj == CutBy(m.adj, c) && m'.i == m.i && m'.left == m.left - 1
    ensures m'.adj0 == m.adj0 && m'.geo == m.geo && m'.Budget() < m.Budget()
  {
    hide Simple, DoneShort, CutSequence, Distinct, Work, ShortPrefix, TakesOnePiece, CutBy, HasEdge;
    NextEdge(m);
    CutKeys(m.adj, c, m.geo);
    OneMoreCut(m.adj0, m.cuts, m.adj, c, m.geo);
    CutAhead(m.adj, c, |m.adj[c.from]| - m.left, m.geo);
    CutBehind(m.order, m.i, m.adj, c, m.geo);
    CutWork(m.order, m.adj, c, m.geo);
    CutSimple(m.adj, c, m.geo);
    Appended(m.order, c.temp);
    m' := Moment(m.order + [c.temp], m.i, m.left - 1, CutBy(m.adj, c), m.adj0, m.cuts + [c], m.geo);
  }

  // One turn of the inner loop.
  lemma WalkStep(m: Walk, temp: Vertex?, unit: real, order: seq<Vertex>, adj: Adj) returns (m': Walk)
    requires m.left > 0
    requires Divided(m.order, m.adj, m.order[m.i], m.NextEnd(), temp, unit, order, adj, m.geo)
    ensures m'.order == order && m'.adj == adj && m'.i == m.i && m'.left == m.left - 1
    ensures m'.adj0 == m.adj0 && m'.geo == m.geo && m'.Budget() <= m.Budget()
  {
    if temp == null {
      m' := ShortWalks(m);
    } else {
      m' := CutWalks(m, CutRecord(m.order[m.i], m.NextEnd(), temp, unit));
    }
  }

  // The edges of vertex i are done: on to those of the next one.
  lemma CloseList(m: Walk) returns (m': Walk)
    requires m.i < |m.order| && m.left == 0
    ensures m'.order == m.order && m'.adj == m.adj && m'.adj0 == m.adj0 && m'.geo == m.geo
    ensures m'.i == m.i + 1 && m'.left == m'.ListLength()
    ensures m'.Budget() == m.Budget()
  {
    hide Simple, CutSequence, Distinct, Work;
    var left := if m.i + 1 < |m.order| then |m.adj[m.order[m.i + 1]]| else 0;
    m' := m.(i := m.i + 1, left := left);
  }

  // The inner loop of graph_division: the edges of v, the vertex at position i. The list node n1
  // is held as its distance to the end of the list, which edges added or removed in front of it
  // do not change.
  method DivideEdges(graph: Graph, v: Vertex, geo: Geometry, ghost m0: Walk) returns (ghost m: Walk)
    requires graph.Valid() && Proportional(geo.distance)
    requires m0.order == graph.vertices && m0.adj == Adjacency(graph.vertices) && m0.geo == geo
    requires m0.i < |m0.order| && m0.order[m0.i] == v && m0.left == m0.ListLength()
    modifies graph, graph.vertices
    ensures graph.Valid() && m.order == graph.vertices && m.adj == Adjacency(graph.vertices)
    ensures old(graph.vertices) <= graph.vertices
    ensures forall k :: |old(graph.vertices)| <= k < |graph.vertices| ==> fresh(graph.vertices[k])
    ensures m.i == m0.i && m.left == 0 && m.adj0 == m0.adj0 && m.geo == geo && m.Budget() <= m0.Budget()
  {
    hide Moment.Holds, Moment.Budget, Simple, Distinct, DegreesCount, Divided, Proportional;
    m := m0;
    assert m0.adj[v] == v.edges;
    var left := |v.edges|;
    while left > 0
      invariant graph.Valid() && m.order == graph.vertices && m.adj == Adjacency(graph.vertices)
      invariant old(graph.vertices) <= graph.vertices
      invariant forall k :: |old(graph.vertices)| <= k < |graph.vertices| ==> fresh(graph.vertices[k])
      invariant m.i == m0.i && m.left == left && m.adj0 == m0.adj0 && m.geo == geo && m.Budget() <= m0.Budget()
    {
      NextEdge(m);
      assert m.order[m.i] == v && m.adj[v] == v.edges;
      var to := v.edges[|v.edges| - left].vertex;
      assert to == m.NextEnd() && to in graph.vertices;
      ghost var temp, unit := EdgeDivision(graph, v, to, geo);
      m := WalkStep(m, temp, unit, graph.vertices, Adjacency(graph.vertices));
      left := left - 1;
    }
  }

  // graph_division. The vertex list grows while it is walked; every cut takes one vertex out of
  // the work that is left, so position, length and work together bound the walk.
  method GraphDivision(graph: Graph, geo: Geometry) returns (ghost cuts: seq<CutRecord>)
    requires graph.Valid() && Proportional(geo.distance)
    modifies graph, graph.vertices
    ensures graph.Valid() && old(graph.vertices) <= graph.vertices
    ensures forall k :: |old(graph.vertices)| <= k < |graph.vertices| ==> fresh(graph.vertices[k])
    ensures AllShort(Adjacency(graph.vertices), geo)
    ensures CutSequence(old(Adjacency(graph.vertices)), cuts, Adjacency(graph.vertices), geo)
  {
    hide Moment.Holds, Moment.Budget, Simple, Distinct, DegreesCount, Proportional, CutSequence, AllShort;
    ghost var adj0 := Adjacency(graph.vertices);
    ghost var m: Walk := FirstMoment(graph.vertices, adj0, geo);
    var i := 0;
    while i < |graph.vertices|
      invariant graph.Valid() && m.order == graph.vertices && m.adj == Adjacency(graph.vertices)
      invariant old(graph.vertices) <= graph.vertices && 0 <= i <= |graph.vertices|
      invariant forall k :: |old(graph.vertices)| <= k < |graph.vertices| ==> fresh(graph.vertices[k])
      invariant m.i == i && m.adj0 == adj0 && m.geo == geo && m.left == m.ListLength()
      decreases m.Budget() - i
    {
      m := DivideEdges(graph, graph.vertices[i], geo, m);
      BudgetBound(m);
      m := CloseList(m);
      i := i + 1;
    }
    EverythingWalked(m);
    cuts := m.cuts;
  }

  lemma BudgetBound(m: Walk)
    ensures |m.order| <= m.Budget()
  {
  }

  lemma FirstMoment(order: seq<Vertex>, adj: Adj, geo: Geometry) returns (m: Walk)
    requires Distinct(order) && Simple(adj) && forall v :: v in order <==> v in adj
    ensures m.order == order && m.adj == adj && m.adj0 == adj && m.geo == geo && m.i == 0
    ensures m.left == m.ListLength()
  {
    m := Moment(order, 0, if order == [] then 0 else |adj[order[0]]|, adj, adj, [], geo);
  }

  lemma EverythingWalked(m: Walk)
    requires m.i == |m.order|
    ensures AllShort(m.adj, m.geo) && CutSequence(m.adj0, m.cuts, m.adj, m.geo)
  {
    forall v: Vertex, e: Edge | v in m.adj && e in m.adj[v]
      ensures m.geo.Between(v, e.vertex) <= MAX_DIST
    {
      var j :| 0 <= j < |m.order| && m.order[j] == v;
      var k :| 0 <= k < |m.adj[v]| && m.adj[v][k] == e;
    }
  }
}
