/** The road graph of graph.cc: vertices with an edge list and two degree counters each, kept in
    step by hand. Edge lists and the vertex list are sequences in list order (module NodeList
    shows that the linked lists behind them are such sequences). */
module RoadGraph {
  import opened Sequences

  datatype Point = Point(lat: real, lng: real)

  datatype Edge = Edge(vertex: Vertex, roadId: int)

  class Vertex {
    const id: string
    const pos: Point
    const geoHash: bv64
    const isIntersection: bool
    var edges: seq<Edge>
    var indegree: int
    var outdegree: int

    constructor (id: string, pos: Point, geoHash: bv64, isIntersection: bool)
      ensures this.id == id && this.pos == pos && this.geoHash == geoHash && this.isIntersection == isIntersection
      ensures edges == [] && indegree == 0 && outdegree == 0
    {
      this.id, this.pos, this.geoHash, this.isIntersection := id, pos, geoHash, isIntersection;
      edges, indegree, outdegree := [], 0, 0;
    }
  }

  // ---- edge lists ----

  predicate HasEdge(es: seq<Edge>, v: Vertex) {
    exists i :: 0 <= i < |es| && es[i].vertex == v
  }

  // es without its first edge to v
  function Without(es: seq<Edge>, v: Vertex): seq<Edge> {
    if es == [] then []
    else if es[0].vertex == v then es[1..]
    else [es[0]] + Without(es[1..], v)
  }

  // At most one edge to each vertex.
  ghost predicate Unique(es: seq<Edge>) {
    forall i, j :: 0 <= i < j < |es| ==> es[i].vertex != es[j].vertex
  }

  lemma EdgeInTail(es: seq<Edge>, v: Vertex)
    requires es != [] && es[0].vertex != v
    ensures HasEdge(es, v) <==> HasEdge(es[1..], v)
  {
    if HasEdge(es, v) {
      var i :| 0 <= i < |es| && es[i].vertex == v;
      assert es[1..][i - 1].vertex == v;
    }
    if HasEdge(es[1..], v) {
      var i :| 0 <= i < |es[1..]| && es[1..][i].vertex == v;
      assert es[i + 1].vertex == v;
    }
  }

  lemma {:induction false} WithoutLength(es: seq<Edge>, v: Vertex)
    ensures |Without(es, v)| == |es| - (if HasEdge(es, v) then 1 else 0)
  {
    if es != [] && es[0].vertex != v {
      EdgeInTail(es, v);
      WithoutLength(es[1..], v);
    }
  }

  lemma {:induction false} WithoutMembers(es: seq<Edge>, v: Vertex)
    ensures forall e :: e in Without(es, v) ==> e in es
    ensures forall e :: e in es && e.vertex != v ==> e in Without(es, v)
  {
    if es != [] && es[0].vertex != v {
      WithoutMembers(es[1..], v);
      assert forall e :: e in es <==> e == es[0] || e in es[1..];
    }
  }

  lemma {:induction false} WithoutUnique(es: seq<Edge>, v: Vertex)
    requires Unique(es)
    ensures Unique(Without(es, v)) && !HasEdge(Without(es, v), v)
  {
    if es != [] && es[0].vertex != v {
      var t := Without(es[1..], v);
      WithoutUnique(es[1..], v);
      WithoutMembers(es[1..], v);
      forall j | 0 <= j < |t|
        ensures es[0].vertex != t[j].vertex
      {
        assert t[j] in es[1..];
      }
      if HasEdge([es[0]] + t, v) { EdgeInTail([es[0]] + t, v); }
    }
  }

  lemma UniqueEdge(es: seq<Edge>, e: Edge, f: Edge)
    requires Unique(es) && e in es && f in es && e.vertex == f.vertex
    ensures e == f
  {
  }

  // ---- adjacency: what the edge lists of a graph say ----

  type Adj = map<Vertex, seq<Edge>>

  // A simple undirected graph: no self-loop, one edge per ordered pair, every edge listed at both
  // ends with the same road, none to a vertex outside.
  ghost predicate Simple(adj: Adj) {
    && (forall v :: v in adj ==> Unique(adj[v]))
    && (forall v, e :: v in adj && e in adj[v] ==>
          e.vertex in adj && e.vertex != v && Edge(v, e.roadId) in adj[e.vertex])
  }

  ghost function Link(adj: Adj, a: Vertex, b: Vertex, road: int): Adj
    requires a in adj && b in adj
  {
    adj[a := [Edge(b, road)] + adj[a]][b := [Edge(a, road)] + adj[b]]
  }

  ghost function Unlink(adj: Adj, a: Vertex, b: Vertex): Adj
    requires a in adj && b in adj
  {
    adj[a := Without(adj[a], b)][b := Without(adj[b], a)]
  }

  lemma EdgeBothWays(adj: Adj, a: Vertex, b: Vertex)
    requires Simple(adj) && a in adj && b in adj
    ensures HasEdge(adj[a], b) <==> HasEdge(adj[b], a)
  {
    if HasEdge(adj[a], b) {
      var i :| 0 <= i < |adj[a]| && adj[a][i].vertex == b;
      assert adj[a][i] in adj[a] && Edge(a, adj[a][i].roadId) in adj[b];
    }
    if HasEdge(adj[b], a) {
      var i :| 0 <= i < |adj[b]| && adj[b][i].vertex == a;
      assert adj[b][i] in adj[b] && Edge(b, adj[b][i].roadId) in adj[a];
    }
  }

  lemma LinkSimple(adj: Adj, a: Vertex, b: Vertex, road: int)
    requires Simple(adj) && a in adj && b in adj && a != b
    requires !HasEdge(adj[a], b)
    ensures Simple(Link(adj, a, b, road))
  {
    var adj' := Link(adj, a, b, road);
    EdgeBothWays(adj, a, b);
    assert Unique(adj'[a]) && Unique(adj'[b]);
    assert Edge(b, road) in adj'[a] && Edge(a, road) in adj'[b];
    forall v: Vertex, e: Edge | v in adj' && e in adj'[v]
      ensures e.vertex in adj' && e.vertex != v && Edge(v, e.roadId) in adj'[e.vertex]
    {
      if (v == a && e == Edge(b, road)) || (v == b && e == Edge(a, road)) {
      } else {
        assert e in adj[v];
        assert Edge(v, e.roadId) in adj[e.vertex];
      }
    }
  }

  lemma UnlinkSimple(adj: Adj, a: Vertex, b: Vertex)
    requires Simple(adj) && a in adj && b in adj && a != b
    ensures Simple(Unlink(adj, a, b))
    ensures !HasEdge(Unlink(adj, a, b)[a], b) && !HasEdge(Unlink(adj, a, b)[b], a)
  {
    var adj' := Unlink(adj, a, b);
    WithoutMembers(adj[a], b);
    WithoutMembers(adj[b], a);
    WithoutUnique(adj[a], b);
    WithoutUnique(adj[b], a);
    forall v: Vertex, e: Edge | v in adj' && e in adj'[v]
      ensures e.vertex in adj' && e.vertex != v && Edge(v, e.roadId) in adj'[e.vertex]
    {
      assert e in adj[v];
      assert Edge(v, e.roadId) in adj[e.vertex];
      if v == a { assert e.vertex != b; }
      if v == b { assert e.vertex != a; }
    }
  }

  lemma IsolatedSimple(adj: Adj, v: Vertex)
    requires Simple(adj) && v !in adj
    ensures Simple(adj[v := []])
  {
    var adj' := adj[v := []];
    forall u: Vertex, e: Edge | u in adj' && e in adj'[u]
      ensures e.vertex in adj' && e.vertex != u && Edge(u, e.roadId) in adj'[e.vertex]
    {
      assert e in adj[u];
    }
  }

  // Dropping v once no edge leads to it.
  lemma DropSimple(adj: Adj, v: Vertex)
    requires Simple(adj) && v in adj
    requires forall u :: u in adj ==> !HasEdge(adj[u], v)
    ensures Simple(adj - {v})
  {
    forall u: Vertex, e: Edge | u in adj - {v} && e in adj[u]
      ensures e.vertex in adj - {v}
    {
      assert e in adj[u];
    }
  }

  // The vertices with an edge to v.
  ghost function InNeighbours(adj: Adj, v: Vertex): set<Vertex> {
    set u | u in adj && HasEdge(adj[u], v)
  }

  ghost function Targets(es: seq<Edge>): (r: set<Vertex>)
    ensures forall v :: v in r ==> HasEdge(es, v)
    ensures forall i :: 0 <= i < |es| ==> es[i].vertex in r
  {
    set i | 0 <= i < |es| :: es[i].vertex
  }

  lemma {:induction false} TargetsCount(es: seq<Edge>)
    requires Unique(es)
    ensures |Targets(es)| == |es|
  {
    if es != [] {
      var n := |es| - 1;
      var init := es[..n];
      TargetsCount(init);
      assert Targets(es) == Targets(init) + {es[n].vertex};
    }
  }

  // In a simple graph as many edges point to a vertex as it lists.
  lemma InEqualsOut(adj: Adj, v: Vertex)
    requires Simple(adj) && v in adj
    ensures |InNeighbours(adj, v)| == |adj[v]|
  {
    TargetsCount(adj[v]);
    forall u
      ensures u in InNeighbours(adj, v) <==> u in Targets(adj[v])
    {
      if u in adj && HasEdge(adj[u], v) {
        var i :| 0 <= i < |adj[u]| && adj[u][i].vertex == v;
        assert adj[u][i] in adj[u] && Edge(u, adj[u][i].roadId) in adj[v];
      }
      if HasEdge(adj[v], u) {
        var i :| 0 <= i < |adj[v]| && adj[v][i].vertex == u;
        assert adj[v][i] in adj[v] && Edge(v, adj[v][i].roadId) in adj[u];
      }
    }
    assert InNeighbours(adj, v) == Targets(adj[v]);
  }

  // ---- directed operations ----

  // vertex_add_edge_to_vertex
  method AddEdge(from: Vertex, to: Vertex, roadId: int)
    modifies from`edges, from`outdegree, to`indegree
    ensures from.edges == [Edge(to, roadId)] + old(from.edges)
    ensures from.outdegree == old(from.outdegree) + 1 && to.indegree == old(to.indegree) + 1
  {
    from.edges := [Edge(to, roadId)] + from.edges;
    to.indegree := to.indegree + 1;
    from.outdegree := from.outdegree + 1;
  }

  lemma WithoutFrom(es: seq<Edge>, i: nat, v: Vertex)
    requires i < |es|
    ensures es[i].vertex == v ==> es[..i] + Without(es[i..], v) == es[..i] + es[i + 1..]
    ensures es[i].vertex != v ==> es[..i] + Without(es[i..], v) == es[..i + 1] + Without(es[i + 1..], v)
  {
  }

  lemma NothingWithout(es: seq<Edge>, v: Vertex)
    ensures Without(es, v) == es[..0] + Without(es[0..], v) && es[..|es|] + Without(es[|es|..], v) == es
  {
    assert es[0..] == es;
  }

  // vertex_remove_edge_to_vertex
  method RemoveEdge(from: Vertex, to: Vertex)
    modifies from`edges, from`outdegree, to`indegree
    ensures from.edges == Without(old(from.edges), to)
    ensures var n := if HasEdge(old(from.edges), to) then 1 else 0;
      from.outdegree == old(from.outdegree) - n && to.indegree == old(to.indegree) - n
  {
    NothingWithout(from.edges, to);
    hide Without;
    var i := 0;
    while i < |from.edges|
      invariant 0 <= i <= |from.edges| && from.edges == old(from.edges)
      invariant from.outdegree == old(from.outdegree) && to.indegree == old(to.indegree)
      invariant forall k :: 0 <= k < i ==> from.edges[k].vertex != to
      invariant Without(from.edges, to) == from.edges[..i] + Without(from.edges[i..], to)
    {
      WithoutFrom(from.edges, i, to);
      if from.edges[i].vertex == to {
        from.edges := from.edges[..i] + from.edges[i + 1..];
        to.indegree := to.indegree - 1;
        from.outdegree := from.outdegree - 1;
        return;
      }
      i := i + 1;
    }
  }

  // find_road_id, on the edge list of from
  function RoadOf(es: seq<Edge>, to: Vertex): (r: int)
    ensures HasEdge(es, to) ==> Edge(to, r) in es
    ensures !HasEdge(es, to) ==> r == -1
  {
    if es == [] then -1
    else if es[0].vertex == to then es[0].roadId
    else
      assert forall i :: 0 < i < |es| ==> es[i] == es[1..][i - 1];
      RoadOf(es[1..], to)
  }

  // ---- undirected operations; all lists the vertices they are kept consistent on ----

  ghost function Adjacency(all: seq<Vertex>): Adj
    reads all
  {
    map v | v in all :: v.edges
  }

  ghost predicate DegreesCount(all: seq<Vertex>)
    reads all
  {
    forall v :: v in all ==> v.outdegree == |v.edges| && v.indegree == |v.edges|
  }

  ghost predicate WellKept(all: seq<Vertex>)
    reads all
  {
    Distinct(all) && Simple(Adjacency(all)) && DegreesCount(all)
  }

  // What the counters count: the edges listed, and the edges pointing in.
  lemma DegreesMeaning(all: seq<Vertex>, v: Vertex)
    requires WellKept(all) && v in all
    ensures v.outdegree == |v.edges|
    ensures v.indegree == |InNeighbours(Adjacency(all), v)|
  {
    InEqualsOut(Adjacency(all), v);
    assert Adjacency(all)[v] == v.edges;
  }

  // vertex_add_edge_to_vertex_undirect
  method AddUndirected(from: Vertex, to: Vertex, roadId: int, ghost all: seq<Vertex>)
    requires from in all && to in all && from != to && DegreesCount(all)
    modifies from, to
    ensures DegreesCount(all) && Adjacency(all) == Link(old(Adjacency(all)), from, to, roadId)
  {
    AddEdge(from, to, roadId);
    AddEdge(to, from, roadId);
  }

  // vertex_remove_edge_to_vertex_undirect
  method RemoveUndirected(from: Vertex, to: Vertex, ghost all: seq<Vertex>)
    requires from in all && to in all && from != to && WellKept(all)
    modifies from, to
    ensures WellKept(all) && Adjacency(all) == Unlink(old(Adjacency(all)), from, to)
  {
    ghost var adj := Adjacency(all);
    hide Simple, Without, HasEdge, Distinct, Unique;
    UnlinkCounts(adj, from, to);
    RemoveEdge(from, to);
    RemoveEdge(to, from);
    assert Adjacency(all) == Unlink(adj, from, to);
  }

  lemma UnlinkCounts(adj: Adj, a: Vertex, b: Vertex)
    requires Simple(adj) && a in adj && b in adj && a != b
    ensures Simple(Unlink(adj, a, b)) && (HasEdge(adj[a], b) <==> HasEdge(adj[b], a))
    ensures var n := if HasEdge(adj[a], b) then 1 else 0;
      |Without(adj[a], b)| == |adj[a]| - n && |Without(adj[b], a)| == |adj[b]| - n
  {
    UnlinkSimple(adj, a, b);
    WithoutLength(adj[a], b);
    WithoutLength(adj[b], a);
    EdgeBothWays(adj, a, b);
  }

  // vertex_add_edge_to_vertex_undirect_exclusive
  method AddExclusive(from: Vertex, to: Vertex, roadId: int, ghost all: seq<Vertex>)
    requires from in all && to in all && from != to && WellKept(all)
    modifies from, to
    ensures WellKept(all) && Adjacency(all) == Link(Unlink(old(Adjacency(all)), from, to), from, to, roadId)
  {
    ghost var adj := Adjacency(all);
    UnlinkSimple(adj, from, to);
    RemoveUndirected(from, to, all);
    LinkSimple(Adjacency(all), from, to, roadId);
    AddUndirected(from, to, roadId, all);
  }

  // The else branch of graph_remove_vertex_undirect.
  method Detach(v: Vertex, vertex: Vertex, ghost all: seq<Vertex>, ghost k: nat, ghost done: nat, ghost before: Adj)
    requires k < |all| && all[k] == vertex && done < |all| && all[done] == v && v != vertex
    requires Detached(all, k, done, before)
    modifies v, vertex
    ensures Detached(all, k, done + 1, before)
  {
    ClearStep(all, k, done, before, Adjacency(all));
    RemoveUndirected(v, vertex, all);
  }

  class Graph {
    var vertices: seq<Vertex>

    ghost predicate Valid()
      reads this, vertices
    {
      WellKept(vertices)
    }

    // graph_create
    constructor ()
      ensures Valid() && vertices == []
    {
      vertices := [];
    }

    // graph_add_vertex
    method AddVertex(v: Vertex)
      requires Valid() && v !in vertices && v.edges == [] && v.indegree == 0 && v.outdegree == 0
      modifies this
      ensures Valid() && vertices == old(vertices) + [v]
      ensures Adjacency(vertices) == old(Adjacency(vertices))[v := []]
    {
      IsolatedSimple(Adjacency(vertices), v);
      ghost var adj := Adjacency(vertices);
      Appended(vertices, v);
      vertices := vertices + [v];
      assert Adjacency(vertices) == adj[v := []];
    }

    // graph_remove_vertex_undirect
    method RemoveVertex(vertex: Vertex) returns (ghost k: nat)
      requires Valid() && vertex in vertices
      modifies this, vertices
      ensures Valid()
      ensures k < |old(vertices)| && old(vertices)[k] == vertex
      ensures vertices == old(vertices)[..k] + old(vertices)[k + 1..]
      ensures forall v :: v in vertices ==> v.edges == Without(old(v.edges), vertex)
    {
      ghost var all, before := vertices, Adjacency(vertices);
      hide WellKept, Cleared, Detached, Adjacency, Walking;
      NoneDetached(all, before);
      k :| 0 <= k < |all| && all[k] == vertex;
      ghost var done := 0;
      var i := 0;
      WalkStarts(all, k);
      while i < |vertices|
        invariant 0 <= i <= |vertices| && done <= |all|
        invariant Walking(all, k, done, i, vertices) && Detached(all, k, done, before)
        decreases |all| - done
      {
        var v := vertices[i];
        WalkedTo(all, k, done, i, vertices);
        if v == vertex {
          SkipItself(all, k, done, before);
          vertices := vertices[..i] + vertices[i + 1..];
        } else {
          Detach(v, vertex, all, k, done, before);
          i := i + 1;
        }
        done := done + 1;
      }
      WalkEnds(all, k, done, i, vertices);
      DropVertex(all, k, before);
    }

    // graph_is_balanced
    method IsBalanced() returns (balanced: bool)
      ensures balanced <==> forall v :: v in vertices ==> v.indegree == v.outdegree
      ensures Valid() ==> balanced
    {
      for i := 0 to |vertices|
        invariant forall k :: 0 <= k < i ==> vertices[k].indegree == vertices[k].outdegree
      {
        if vertices[i].indegree != vertices[i].outdegree { return false; }
      }
      return true;
    }
  }

  // The first done vertices of all, but all[k], have lost their edge to all[k].
  ghost predicate Cleared(all: seq<Vertex>, k: nat, done: nat, before: Adj, adj: Adj)
    requires k < |all|
  {
    && (forall v :: v in all ==> v in adj && v in before)
    && (forall j {:trigger all[j]} :: 0 <= j < |all| && j != k ==>
          adj[all[j]] == if j < done then Without(before[all[j]], all[k]) else before[all[j]])
  }

  // The graph on the way.
  ghost predicate Detached(all: seq<Vertex>, k: nat, done: nat, before: Adj)
    requires k < |all|
    reads all
  {
    WellKept(all) && Cleared(all, k, done, before, Adjacency(all))
  }

  lemma NoneDetached(all: seq<Vertex>, before: Adj)
    requires WellKept(all) && before == Adjacency(all)
    ensures forall k: nat :: k < |all| ==> Detached(all, k, 0, before)
    ensures forall v :: v in all ==> v in before && before[v] == v.edges && Unique(before[v])
  {
  }

  lemma SkipItself(all: seq<Vertex>, k: nat, done: nat, before: Adj)
    requires k < |all| && Detached(all, k, done, before) && done < |all| && all[done] == all[k]
    ensures done == k && Detached(all, k, done + 1, before)
  {
    DiffersFromOthers(all, k);
    ClearSkip(all, k, before, Adjacency(all));
  }

  // The walk is at position i of the list, which is position done of all.
  ghost predicate Walking(all: seq<Vertex>, k: nat, done: nat, i: nat, current: seq<Vertex>)
    requires k < |all|
  {
    current == (if done <= k then all else all[..k] + all[k + 1..]) && i == if done <= k then done else done - 1
  }

  lemma WalkStarts(all: seq<Vertex>, k: nat)
    requires k < |all|
    ensures Walking(all, k, 0, 0, all)
  {
  }

  lemma WalkedTo(all: seq<Vertex>, k: nat, done: nat, i: nat, current: seq<Vertex>)
    requires k < |all| && Walking(all, k, done, i, current) && i < |current|
    ensures done < |all| && current[i] == all[done]
    ensures done != k ==> Walking(all, k, done + 1, i + 1, current)
    ensures done == k ==> Walking(all, k, done + 1, i, current[..i] + current[i + 1..])
  {
  }

  lemma WalkEnds(all: seq<Vertex>, k: nat, done: nat, i: nat, current: seq<Vertex>)
    requires k < |all| && Walking(all, k, done, i, current) && i == |current| && done <= |all|
    ensures done == |all| && current == all[..k] + all[k + 1..]
  {
  }

  lemma ClearStep(all: seq<Vertex>, k: nat, done: nat, before: Adj, adj: Adj)
    requires Distinct(all) && k < |all| && done < |all| && done != k
    requires Cleared(all, k, done, before, adj)
    ensures Cleared(all, k, done + 1, before, Unlink(adj, all[done], all[k]))
  {
    DiffersFromOthers(all, done);
    DiffersFromOthers(all, k);
  }

  lemma ClearSkip(all: seq<Vertex>, k: nat, before: Adj, adj: Adj)
    requires k < |all| && Cleared(all, k, k, before, adj)
    ensures Cleared(all, k, k + 1, before, adj)
  {
  }

  lemma ClearedAll(all: seq<Vertex>, k: nat, before: Adj, adj: Adj)
    requires k < |all| && Cleared(all, k, |all|, before, adj)
    requires forall v :: v in all ==> Unique(before[v])
    requires !HasEdge(adj[all[k]], all[k])
    ensures forall v :: v in all ==> !HasEdge(adj[v], all[k])
    ensures forall v :: v in all[..k] + all[k + 1..] ==> adj[v] == Without(before[v], all[k])
  {
    forall v | v in all
      ensures !HasEdge(adj[v], all[k])
    {
      var j :| 0 <= j < |all| && all[j] == v;
      if j != k { WithoutUnique(before[v], all[k]); }
    }
    forall v | v in all[..k] + all[k + 1..]
      ensures adj[v] == Without(before[v], all[k])
    {
      var j :| 0 <= j < |all| && j != k && all[j] == v;
    }
  }

  // A consistent graph stays consistent without a vertex that no other lists any more.
  lemma DropVertex(all: seq<Vertex>, k: nat, before: Adj)
    requires k < |all| && Detached(all, k, |all|, before)
    requires forall v :: v in all ==> v in before && Unique(before[v])
    ensures WellKept(all[..k] + all[k + 1..])
    ensures forall v :: v in all[..k] + all[k + 1..] ==> v.edges == Without(before[v], all[k])
  {
    var adj, rest := Adjacency(all), all[..k] + all[k + 1..];
    Removed(all, k);
    RestMembers(all, k);
    ClearedAll(all, k, before, adj);
    DropSimple(adj, all[k]);
    assert forall v :: v in rest ==> v in all && adj[v] == v.edges;
    assert Adjacency(rest) == adj - {all[k]};
  }
}
