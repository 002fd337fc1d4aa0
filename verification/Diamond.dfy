/** Two ways from one vertex to another: the search goes on after it has found its target, gives it a
    new parent, and so lists an intersection on each of them. */
module Diamond {
  import opened CrossVertex
  import opened Options
  import opened RoadGraph
  import opened SearchOrder
  import opened Sequences

  predicate AllDiffer(f: Vertex, x: Vertex, y: Vertex, t: Vertex) {
    f != x && f != y && f != t && x != y && x != t && y != t
  }

  // From f to t by x, on roads 1 and 3, and by y, on roads 2 and 4.
  ghost predicate TwoWays(adj: Adj, f: Vertex, x: Vertex, y: Vertex, t: Vertex) {
    && AllDiffer(f, x, y, t)
    && adj == map[f := [Edge(x, 1), Edge(y, 2)], x := [Edge(t, 3), Edge(f, 1)], y := [Edge(t, 4), Edge(f, 2)],
                  t := [Edge(y, 4), Edge(x, 3)]]
  }

  lemma TwoWaysIsSimple(adj: Adj, f: Vertex, x: Vertex, y: Vertex, t: Vertex)
    requires TwoWays(adj, f, x, y, t)
    ensures Simple(adj) && Closed(adj)
  {
    BothEnds(adj, f, x, y, t);
    SimpleIsClosed(adj);
  }

  lemma BothEnds(adj: Adj, f: Vertex, x: Vertex, y: Vertex, t: Vertex)
    requires TwoWays(adj, f, x, y, t)
    ensures Simple(adj)
  {
    EdgesThere(adj, f, x, y, t);
    assert adj.Keys == {f, x, y, t};
    hide TwoWays;
    assert adj[x][1] in adj[x] && adj[y][1] in adj[y] && adj[t][0] in adj[t] && adj[t][1] in adj[t];
    assert adj[f][0] in adj[f] && adj[f][1] in adj[f] && adj[x][0] in adj[x] && adj[y][0] in adj[y];
    forall v: Vertex, e: Edge | v in adj && e in adj[v]
      ensures e.vertex in adj && e.vertex != v && Edge(v, e.roadId) in adj[e.vertex]
    {
      assert |adj[v]| == 2 && (e == adj[v][0] || e == adj[v][1]);
    }
  }

  // The queue before and after the target has got its second parent.
  function Before(f: Vertex, x: Vertex, y: Vertex, t: Vertex): seq<Entry> {
    [Entry(f, -1, 0), Entry(x, 0, 1), Entry(y, 0, 2), Entry(t, 1, 3)]
  }

  function After(f: Vertex, x: Vertex, y: Vertex, t: Vertex): seq<Entry> {
    [Entry(f, -1, 0), Entry(x, 0, 1), Entry(y, 0, 2), Entry(t, 2, 3)]
  }

  // Every search lists both, in this order.
  lemma ListsBoth(trace: seq<Stage>, adj: Adj, f: Vertex, x: Vertex, y: Vertex, t: Vertex, list: seq<Vertex>)
    requires TwoWays(adj, f, x, y, t)
    requires Run(trace, adj, f, t) && Ended(trace[|trace| - 1], t) && Collected(trace, t, list)
    ensures list == [x, y]
  {
    hide Run, Ended, Collected, Crossing;
    Queues(trace, adj, f, x, y, t);
    ReadBefore(f, x, y, t);
    ReadAfter(f, x, y, t);
    BothListed(trace, x, y, t, list);
  }

  lemma BothListed(trace: seq<Stage>, x: Vertex, y: Vertex, t: Vertex, list: seq<Vertex>)
    requires Collected(trace, t, list) && |trace| == 10 && x != y
    requires forall k :: 0 <= k < 4 ==> Crossing(trace[k].queue, t) == None
    requires forall k :: 4 <= k < 7 ==> Crossing(trace[k].queue, t) == Some(x)
    requires forall k :: 7 <= k < 10 ==> Crossing(trace[k].queue, t) == Some(y)
    ensures list == [x, y]
  {
    hide Crossing;
    if |list| > 2 { ThreeDiffer(list, x, y); }
    assert Crossing(trace[4].queue, t) == Some(x) && Crossing(trace[7].queue, t) == Some(y);
    forall i | 0 <= i < |list|
      ensures list[i] == x || list[i] == y
    {
      assert list[i] in list;
    }
    assert x in list && y in list;
    assert Differ(list, 0, 1) && Sooner(trace, t, list[0], list[1]);
  }

  lemma ThreeDiffer(list: seq<Vertex>, x: Vertex, y: Vertex)
    requires Distinct(list) && |list| > 2
    ensures exists i :: 0 <= i < 3 && list[i] != x && list[i] != y
  {
    assert Differ(list, 0, 1) && Differ(list, 0, 2) && Differ(list, 1, 2);
  }

  lemma ReadBefore(f: Vertex, x: Vertex, y: Vertex, t: Vertex)
    requires AllDiffer(f, x, y, t)
    ensures Crossing(Before(f, x, y, t), t) == Some(x)
  {
    var queue := Before(f, x, y, t);
    PositionIs(queue, t, 3);
    assert ParentBefore(queue, 1) && ParentBefore(queue, 2) && ParentBefore(queue, 3);
    assert Trail(queue, 0) == [0];
    assert Trail(queue, 1) == [1, 0];
    assert Trail(queue, 3) == [3, 1, 0];
    assert OnlyChange(Roads(queue, Trail(queue, 3)), 0);
    MutationAt(queue, 3, 0);
  }

  lemma ReadAfter(f: Vertex, x: Vertex, y: Vertex, t: Vertex)
    requires AllDiffer(f, x, y, t)
    ensures Crossing(After(f, x, y, t), t) == Some(y)
  {
    var queue := After(f, x, y, t);
    PositionIs(queue, t, 3);
    assert ParentBefore(queue, 1) && ParentBefore(queue, 2) && ParentBefore(queue, 3);
    assert Trail(queue, 0) == [0];
    assert Trail(queue, 2) == [2, 0];
    assert Trail(queue, 3) == [3, 2, 0];
    assert OnlyChange(Roads(queue, Trail(queue, 3)), 0);
    MutationAt(queue, 3, 0);
  }

  // ---- the stages ----

  lemma Queues(trace: seq<Stage>, adj: Adj, f: Vertex, x: Vertex, y: Vertex, t: Vertex)
    requires TwoWays(adj, f, x, y, t) && Run(trace, adj, f, t) && Ended(trace[|trace| - 1], t)
    ensures |trace| == 10 && (forall k :: 0 <= k < 4 ==> Crossing(trace[k].queue, t) == None)
    ensures forall k :: 4 <= k < 7 ==> trace[k].queue == Before(f, x, y, t)
    ensures forall k :: 7 <= k < 10 ==> trace[k].queue == After(f, x, y, t)
  {
    hide Run, Ended, Crossing, Closed, TwoWays, Before, After;
    TwoWaysIsSimple(adj, f, x, y, t);
    FromTheStart(trace, adj, f, x, y, t);
    FromX(trace, adj, f, x, y, t);
    FromY(trace, adj, f, x, y, t);
  }

  ghost predicate StandsAt(s: Stage, queue: seq<Entry>, index: nat, n: nat) {
    s.queue == queue && s.index == index && s.n == n
  }

  // While the search has not ended there is a next stage: it goes on to the next entry or follows the
  // next edge.
  lemma NextStage(trace: seq<Stage>, adj: Adj, f: Vertex, t: Vertex, k: nat)
    requires Run(trace, adj, f, t) && Closed(adj) && Ended(trace[|trace| - 1], t)
    requires k < |trace| && !Ended(trace[k], t)
    ensures k + 1 < |trace|
    ensures var s, s' := trace[k], trace[k + 1];
      && s.index < |s.queue| && s.queue[s.index].v in adj
      && var es := adj[s.queue[s.index].v];
         if s.n == |es| then StandsAt(s', s.queue, s.index + 1, 0)
         else s.n < |es| && Follows(s, s', adj, es[s.n])
  {
    hide Follows;
    var s := trace[k];
    assert StepAt(trace, k, adj, t);
    if EdgeLeft(s, adj) { FollowedFollows(s, adj, f, t, adj[s.queue[s.index].v][s.n]); }
  }

  lemma NoNextStage(trace: seq<Stage>, adj: Adj, f: Vertex, t: Vertex, k: nat)
    requires Run(trace, adj, f, t) && k < |trace|
    requires trace[k].index < |trace[k].queue| && trace[k].queue[trace[k].index].v == t
    ensures |trace| == k + 1
  {
    hide Searching;
    assert k + 1 < |trace| ==> StepAt(trace, k, adj, t);
  }

  // Following an edge to a vertex that is not queued, or is queued as entry p.
  lemma ToNew(s: Stage, s': Stage, adj: Adj, e: Edge)
    requires Follows(s, s', adj, e) && forall i :: 0 <= i < |s.queue| ==> s.queue[i].v != e.vertex
    ensures StandsAt(s', s.queue + [Entry(e.vertex, s.index, e.roadId)], s.index, s.n + 1)
  {
  }

  lemma ToKnown(s: Stage, s': Stage, adj: Adj, e: Edge, p: nat)
    requires Follows(s, s', adj, e) && p < |s.queue|
    requires forall i :: 0 <= i < |s.queue| ==> (s.queue[i].v == e.vertex <==> i == p)
    ensures var queue' := if s.index <= p then s.queue[p := Entry(e.vertex, s.index, s.queue[p].road)] else s.queue;
      StandsAt(s', queue', s.index, s.n + 1)
  {
    assert s.queue[p].v == e.vertex;
    var queue' := if s.index <= p then s.queue[p := Entry(e.vertex, s.index, s.queue[p].road)] else s.queue;
    assert |s'.queue| == |queue'| && forall i :: 0 <= i < |queue'| ==> s'.queue[i] == queue'[i];
  }

  lemma NoneRead(queue: seq<Entry>, t: Vertex)
    requires forall i :: 0 <= i < |queue| ==> queue[i].v != t
    ensures Crossing(queue, t) == None
  {
    NoTargetNoCrossing(queue, t);
  }

  lemma FromTheStart(trace: seq<Stage>, adj: Adj, f: Vertex, x: Vertex, y: Vertex, t: Vertex)
    requires TwoWays(adj, f, x, y, t) && Closed(adj) && Run(trace, adj, f, t) && Ended(trace[|trace| - 1], t)
    ensures |trace| > 3 && StandsAt(trace[3], [Entry(f, -1, 0), Entry(x, 0, 1), Entry(y, 0, 2)], 1, 0)
    ensures forall k :: 0 <= k < 4 ==> Crossing(trace[k].queue, t) == None
  {
    hide Run, Crossing, Closed, Follows, TwoWays;
    AtTheStart(trace, adj, f, t);
    EdgesThere(adj, f, x, y, t);
    NextStage(trace, adj, f, t, 0);
    ToNew(trace[0], trace[1], adj, Edge(x, 1));
    NextStage(trace, adj, f, t, 1);
    ToNew(trace[1], trace[2], adj, Edge(y, 2));
    NextStage(trace, adj, f, t, 2);
    NoneRead(trace[0].queue, t);
    NoneRead(trace[1].queue, t);
    NoneRead(trace[2].queue, t);
  }

  lemma EdgesThere(adj: Adj, f: Vertex, x: Vertex, y: Vertex, t: Vertex)
    requires TwoWays(adj, f, x, y, t)
    ensures AllDiffer(f, x, y, t) && f in adj && x in adj && y in adj && t in adj && adj[t] == [Edge(y, 4), Edge(x, 3)]
    ensures adj[f] == [Edge(x, 1), Edge(y, 2)] && adj[x] == [Edge(t, 3), Edge(f, 1)] && adj[y] == [Edge(t, 4), Edge(f, 2)]
  {
  }

  lemma AtTheStart(trace: seq<Stage>, adj: Adj, f: Vertex, t: Vertex)
    requires Run(trace, adj, f, t)
    ensures |trace| > 0 && StandsAt(trace[0], [Entry(f, -1, 0)], 0, 0)
  {
  }

  lemma FromX(trace: seq<Stage>, adj: Adj, f: Vertex, x: Vertex, y: Vertex, t: Vertex)
    requires TwoWays(adj, f, x, y, t) && Closed(adj) && Run(trace, adj, f, t) && Ended(trace[|trace| - 1], t)
    requires |trace| > 3 && StandsAt(trace[3], [Entry(f, -1, 0), Entry(x, 0, 1), Entry(y, 0, 2)], 1, 0)
    ensures |trace| > 6 && StandsAt(trace[6], Before(f, x, y, t), 2, 0)
    ensures trace[4].queue == trace[5].queue == Before(f, x, y, t)
  {
    hide Run, Closed, Follows, TwoWays;
    EdgesThere(adj, f, x, y, t);
    NextStage(trace, adj, f, t, 3);
    ToNew(trace[3], trace[4], adj, Edge(t, 3));
    NextStage(trace, adj, f, t, 4);
    ToKnown(trace[4], trace[5], adj, Edge(f, 1), 0);
    NextStage(trace, adj, f, t, 5);
  }

  lemma FromY(trace: seq<Stage>, adj: Adj, f: Vertex, x: Vertex, y: Vertex, t: Vertex)
    requires TwoWays(adj, f, x, y, t) && Closed(adj) && Run(trace, adj, f, t) && Ended(trace[|trace| - 1], t)
    requires |trace| > 6 && StandsAt(trace[6], Before(f, x, y, t), 2, 0)
    ensures |trace| == 10 && trace[7].queue == trace[8].queue == trace[9].queue == After(f, x, y, t)
  {
    hide Run, Closed, Follows, TwoWays;
    EdgesThere(adj, f, x, y, t);
    NextStage(trace, adj, f, t, 6);
    ToKnown(trace[6], trace[7], adj, Edge(t, 4), 3);
    NextStage(trace, adj, f, t, 7);
    ToKnown(trace[7], trace[8], adj, Edge(f, 2), 0);
    NextStage(trace, adj, f, t, 8);
    NoNextStage(trace, adj, f, t, 9);
  }
}
