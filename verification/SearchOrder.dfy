/** What cross_vertex has recorded at every stage, said by the edges it has followed alone: which parent
    an entry has, which road, and which vertices are queued in which order. */
module SearchOrder {
  import opened CrossVertex
  import opened RoadGraph

  // Edge i of entry j has been followed and leads to v.
  ghost predicate LeadsTo(s: Stage, adj: Adj, j: nat, i: nat, v: Vertex) {
    && j < |s.queue| && s.queue[j].v in adj && i < |adj[s.queue[j].v]|
    && (j < s.index || (j == s.index && i < s.n))
    && adj[s.queue[j].v][i].vertex == v
  }

  ghost predicate SeenFrom(s: Stage, adj: Adj, j: nat, v: Vertex) {
    exists i: nat :: LeadsTo(s, adj, j, i, v)
  }

  predicate NotAfter(j: nat, i: nat, j': nat, i': nat) { j < j' || (j == j' && i <= i') }

  // The parent of entry p is the last entry before it that has been seen to have an edge to it.
  ghost predicate LatestParent(s: Stage, adj: Adj, p: nat)
    requires p < |s.queue|
  {
    && 0 <= s.queue[p].ancest < p && SeenFrom(s, adj, s.queue[p].ancest, s.queue[p].v)
    && forall j: nat :: s.queue[p].ancest < j < p ==> !SeenFrom(s, adj, j, s.queue[p].v)
  }

  // Edge i of entry j is the first that leads to v.
  ghost predicate FirstEdge(s: Stage, adj: Adj, j: nat, i: nat, v: Vertex) {
    && LeadsTo(s, adj, j, i, v)
    && forall j': nat, i': nat :: LeadsTo(s, adj, j', i', v) ==> NotAfter(j, i, j', i')
  }

  // The road of entry p is that of the first edge to it.
  ghost predicate FirstRoad(s: Stage, adj: Adj, p: nat)
    requires p < |s.queue|
  {
    exists j: nat, i: nat :: FirstEdge(s, adj, j, i, s.queue[p].v) && adj[s.queue[j].v][i].roadId == s.queue[p].road
  }

  // An edge to u has been followed by the time edge i' of entry j' was.
  ghost predicate SeenBy(s: Stage, adj: Adj, u: Vertex, j': nat, i': nat) {
    exists j: nat, i: nat :: LeadsTo(s, adj, j, i, u) && NotAfter(j, i, j', i')
  }

  // An edge to u comes before every edge to v.
  ghost predicate FoundBefore(s: Stage, adj: Adj, u: Vertex, v: Vertex) {
    forall j': nat, i': nat :: LeadsTo(s, adj, j', i', v) ==> SeenBy(s, adj, u, j', i')
  }

  // All of it, for every entry but the head.
  ghost predicate Recorded(s: Stage, adj: Adj) {
    && (forall p: nat :: 0 < p < |s.queue| ==> LatestParent(s, adj, p) && FirstRoad(s, adj, p))
    && (forall p: nat, q: nat :: 0 < p < q < |s.queue| ==> FoundBefore(s, adj, s.queue[p].v, s.queue[q].v))
  }

  // At every stage of every search.
  lemma {:induction false} AlwaysRecorded(trace: seq<Stage>, adj: Adj, from: Vertex, to: Vertex, k: nat)
    requires Run(trace, adj, from, to) && Closed(adj) && k < |trace|
    ensures Recorded(trace[k], adj)
  {
    if k > 0 {
      AlwaysRecorded(trace, adj, from, to, k - 1);
      assert StepAt(trace, k - 1, adj, to);
      var s := trace[k - 1];
      hide Recorded, AtEnd, Followed, Searching;
      if AtEnd(s, adj, to) && trace[k] == Advanced(s) {
        AdvanceKeeps(s, adj, to);
      } else {
        FollowKeeps(s, adj, from, to);
      }
    }
  }

  // Vertices and roads stay as they were queued, wherever the search goes.
  lemma {:induction false} StayAsQueued(trace: seq<Stage>, adj: Adj, from: Vertex, to: Vertex, k: nat, l: nat)
    requires Run(trace, adj, from, to) && Closed(adj) && k <= l < |trace|
    ensures |trace[k].queue| <= |trace[l].queue| && forall p: nat :: p < |trace[k].queue| ==>
      trace[l].queue[p].v == trace[k].queue[p].v && trace[l].queue[p].road == trace[k].queue[p].road
    decreases l - k
  {
    hide Run;
    if k < l {
      StayAsQueued(trace, adj, from, to, k, l - 1);
      StepStays(trace, adj, from, to, l - 1);
    }
  }

  lemma StepStays(trace: seq<Stage>, adj: Adj, from: Vertex, to: Vertex, k: nat)
    requires Run(trace, adj, from, to) && k + 1 < |trace|
    ensures |trace[k].queue| <= |trace[k + 1].queue| && forall p: nat :: p < |trace[k].queue| ==>
      trace[k + 1].queue[p].v == trace[k].queue[p].v && trace[k + 1].queue[p].road == trace[k].queue[p].road
  {
    assert StepAt(trace, k, adj, to);
    var s := trace[k];
    hide Run, AtEnd, Searching, Followed;
    if !(AtEnd(s, adj, to) && trace[k + 1] == Advanced(s)) { SameEntries(s, adj[s.queue[s.index].v][s.n], to); }
  }

  lemma SameEntries(s: Stage, e: Edge, to: Vertex)
    ensures var queue' := Followed(s, e, to).queue;
      |s.queue| <= |queue'| && forall p: nat :: p < |s.queue| ==>
        queue'[p].v == s.queue[p].v && queue'[p].road == s.queue[p].road
  {
  }

  // ---- steps ----

  lemma AdvanceKeeps(s: Stage, adj: Adj, to: Vertex)
    requires AtEnd(s, adj, to) && Recorded(s, adj)
    ensures Recorded(Advanced(s), adj)
  {
    var s' := Advanced(s);
    hide LatestParent, FirstRoad, FoundBefore;
    forall p: nat | 0 < p < |s'.queue|
      ensures LatestParent(s', adj, p) && FirstRoad(s', adj, p)
    {
      SameRecord(s, adj, to, p);
    }
    forall p: nat, q: nat | 0 < p < q < |s'.queue|
      ensures FoundBefore(s', adj, s'.queue[p].v, s'.queue[q].v)
    {
      SameFinding(s, adj, to, s.queue[p].v, s.queue[q].v);
    }
  }

  // The same edges have been followed.
  lemma SameEdges(s: Stage, adj: Adj, to: Vertex, j: nat, i: nat, v: Vertex)
    requires AtEnd(s, adj, to)
    ensures LeadsTo(Advanced(s), adj, j, i, v) == LeadsTo(s, adj, j, i, v)
  {
  }

  lemma SameRecord(s: Stage, adj: Adj, to: Vertex, p: nat)
    requires AtEnd(s, adj, to) && p < |s.queue| && LatestParent(s, adj, p) && FirstRoad(s, adj, p)
    ensures LatestParent(Advanced(s), adj, p) && FirstRoad(Advanced(s), adj, p)
  {
    var s', v := Advanced(s), s.queue[p].v;
    hide LeadsTo, AtEnd;
    forall j: nat, i: nat
      ensures LeadsTo(s', adj, j, i, v) == LeadsTo(s, adj, j, i, v)
    {
      SameEdges(s, adj, to, j, i, v);
    }
    var j: nat, i: nat :| FirstEdge(s, adj, j, i, v) && adj[s.queue[j].v][i].roadId == s.queue[p].road;
    assert FirstEdge(s', adj, j, i, v);
    forall j: nat
      ensures SeenFrom(s', adj, j, v) == SeenFrom(s, adj, j, v)
    {
      if SeenFrom(s', adj, j, v) {
        var i: nat :| LeadsTo(s', adj, j, i, v);
        assert LeadsTo(s, adj, j, i, v);
      }
      if SeenFrom(s, adj, j, v) {
        var i: nat :| LeadsTo(s, adj, j, i, v);
        assert LeadsTo(s', adj, j, i, v);
      }
    }
  }

  lemma SameFinding(s: Stage, adj: Adj, to: Vertex, u: Vertex, v: Vertex)
    requires AtEnd(s, adj, to) && FoundBefore(s, adj, u, v)
    ensures FoundBefore(Advanced(s), adj, u, v)
  {
    var s' := Advanced(s);
    hide LeadsTo, AtEnd, NotAfter;
    forall j': nat, i': nat | LeadsTo(s', adj, j', i', v)
      ensures SeenBy(s', adj, u, j', i')
    {
      SameEdges(s, adj, to, j', i', v);
      var j: nat, i: nat :| LeadsTo(s, adj, j, i, u) && NotAfter(j, i, j', i');
      SameEdges(s, adj, to, j, i, u);
    }
  }

  // What following e from s gives, entry by entry.
  ghost predicate Follows(s: Stage, s': Stage, adj: Adj, e: Edge) {
    && AtEdge(s, adj, e) && s.queue[s.index].v != e.vertex
    && s'.index == s.index && s'.n == s.n + 1 && |s.queue| <= |s'.queue|
    && (forall p: nat :: p < |s.queue| ==>
          s'.queue[p] == if s.queue[p].v == e.vertex && s.index <= p then Entry(e.vertex, s.index, s.queue[p].road) else s.queue[p])
    && (if Holds(s.queue, e.vertex) then |s'.queue| == |s.queue|
        else s'.queue == s.queue + [Entry(e.vertex, s.index, e.roadId)])
  }

  lemma FollowedFollows(s: Stage, adj: Adj, from: Vertex, to: Vertex, e: Edge)
    requires Searching(s, adj, from, to) && Closed(adj) && AtEdge(s, adj, e)
    ensures Follows(s, Followed(s, e, to), adj, e)
  {
    hide TargetOf, Processed, Explored, HasEdge;
    EdgeThere(s, adj, e);
    var p := Position(s.queue, e.vertex);
    assert forall q: nat :: q < |s.queue| && s.queue[q].v == e.vertex ==> q == p;
  }

  // One edge more has been followed.
  lemma OneMore(s: Stage, s': Stage, adj: Adj, e: Edge, j: nat, i: nat, v: Vertex)
    requires Follows(s, s', adj, e)
    ensures LeadsTo(s', adj, j, i, v) <==> LeadsTo(s, adj, j, i, v) || (j == s.index && i == s.n && v == e.vertex)
  {
  }

  lemma OneMoreSeen(s: Stage, s': Stage, adj: Adj, e: Edge, j: nat, v: Vertex)
    requires Follows(s, s', adj, e)
    ensures SeenFrom(s', adj, j, v) <==> SeenFrom(s, adj, j, v) || (j == s.index && v == e.vertex)
  {
    hide LeadsTo, Follows;
    forall i: nat
      ensures LeadsTo(s', adj, j, i, v) <==> LeadsTo(s, adj, j, i, v) || (j == s.index && i == s.n && v == e.vertex)
    {
      OneMore(s, s', adj, e, j, i, v);
    }
    if SeenFrom(s', adj, j, v) {
      var i: nat :| LeadsTo(s', adj, j, i, v);
    }
    if j == s.index && v == e.vertex { assert LeadsTo(s', adj, j, s.n, v); }
  }

  // Nothing behind the entry in turn has been looked at.
  lemma NotSeenBehind(s: Stage, adj: Adj, j: nat, v: Vertex)
    requires s.index < j
    ensures !SeenFrom(s, adj, j, v)
  {
  }

  // Every vertex that a followed edge leads to is queued.
  lemma SeenIsQueued(s: Stage, adj: Adj, from: Vertex, to: Vertex, j: nat, i: nat, v: Vertex)
    requires Searching(s, adj, from, to) && LeadsTo(s, adj, j, i, v)
    ensures Holds(s.queue, v)
  {
    hide WellQueued, Holds, TargetOf;
    var es := adj[s.queue[j].v];
    if j < s.index { assert Explored(s.queue, es, |es|); }
    assert es[i].vertex == v;
  }

  lemma ParentKeeps(s: Stage, s': Stage, adj: Adj, e: Edge, p: nat)
    requires Follows(s, s', adj, e) && 0 < p < |s'.queue| && (p < |s.queue| ==> LatestParent(s, adj, p))
    requires s.index < p || s.index > p || s.queue[p].v != e.vertex
    ensures LatestParent(s', adj, p)
  {
    hide SeenFrom;
    var v := s'.queue[p].v;
    forall j: nat
      ensures SeenFrom(s', adj, j, v) <==> SeenFrom(s, adj, j, v) || (j == s.index && v == e.vertex)
    {
      OneMoreSeen(s, s', adj, e, j, v);
    }
    forall j: nat | s.index < j
      ensures !SeenFrom(s, adj, j, v)
    {
      NotSeenBehind(s, adj, j, v);
    }
  }

  // A first edge stays the first, since the others are followed after it ...
  lemma FirstStays(s: Stage, s': Stage, adj: Adj, e: Edge, j: nat, i: nat, v: Vertex)
    requires Follows(s, s', adj, e) && FirstEdge(s, adj, j, i, v)
    ensures FirstEdge(s', adj, j, i, v)
  {
    assert NotAfter(j, i, s.index, s.n);
    hide LeadsTo, Follows, NotAfter;
    forall j': nat, i': nat
      ensures LeadsTo(s', adj, j', i', v) <==> LeadsTo(s, adj, j', i', v) || (j' == s.index && i' == s.n && v == e.vertex)
    {
      OneMore(s, s', adj, e, j', i', v);
    }
  }

  // ... and the first edge to a new vertex is the one followed now.
  lemma FirstOfNew(s: Stage, s': Stage, adj: Adj, from: Vertex, to: Vertex, e: Edge)
    requires Searching(s, adj, from, to) && Follows(s, s', adj, e) && !Holds(s.queue, e.vertex)
    ensures FirstEdge(s', adj, s.index, s.n, e.vertex)
    ensures forall j, i :: !LeadsTo(s, adj, j, i, e.vertex)
  {
    assert NotAfter(s.index, s.n, s.index, s.n);
    hide LeadsTo, Follows, Holds, Searching, NotAfter;
    forall j: nat, i: nat
      ensures LeadsTo(s', adj, j, i, e.vertex) <==> j == s.index && i == s.n
      ensures !LeadsTo(s, adj, j, i, e.vertex)
    {
      OneMore(s, s', adj, e, j, i, e.vertex);
      if LeadsTo(s, adj, j, i, e.vertex) { SeenIsQueued(s, adj, from, to, j, i, e.vertex); }
    }
  }

  lemma RoadKeeps(s: Stage, s': Stage, adj: Adj, from: Vertex, to: Vertex, e: Edge, p: nat)
    requires Searching(s, adj, from, to) && Follows(s, s', adj, e) && 0 < p < |s'.queue| && (p < |s.queue| ==> FirstRoad(s, adj, p))
    ensures FirstRoad(s', adj, p)
  {
    hide Searching, Holds, NotAfter;
    if p < |s.queue| {
      var v := s.queue[p].v;
      var j: nat, i: nat :| FirstEdge(s, adj, j, i, v) && adj[s.queue[j].v][i].roadId == s.queue[p].road;
      FirstStays(s, s', adj, e, j, i, v);
    } else {
      FirstOfNew(s, s', adj, from, to, e);
    }
  }

  lemma OrderKeeps(s: Stage, s': Stage, adj: Adj, from: Vertex, to: Vertex, e: Edge, p: nat, q: nat)
    requires Searching(s, adj, from, to) && Follows(s, s', adj, e) && 0 < p < q < |s'.queue| && p < |s.queue|
    requires LatestParent(s, adj, p) && (q < |s.queue| ==> FoundBefore(s, adj, s.queue[p].v, s.queue[q].v))
    ensures FoundBefore(s', adj, s'.queue[p].v, s'.queue[q].v)
  {
    var u, v := s.queue[p].v, s'.queue[q].v;
    assert s'.queue[p].v == u && (q < |s.queue| ==> v == s.queue[q].v);
    if q == |s.queue| { FirstOfNew(s, s', adj, from, to, e); }
    hide LeadsTo, Follows, Searching, NotAfter, Holds;
    forall j': nat, i': nat | LeadsTo(s', adj, j', i', v)
      ensures SeenBy(s', adj, u, j', i')
    {
      OneMore(s, s', adj, e, j', i', v);
      var j: nat, i: nat;
      if LeadsTo(s, adj, j', i', v) {
        j, i :| LeadsTo(s, adj, j, i, u) && NotAfter(j, i, j', i');
      } else {
        j := s.queue[p].ancest;
        i :| LeadsTo(s, adj, j, i, u);
        BeforeNow(s, adj, j, i, u);
      }
      OneMore(s, s', adj, e, j, i, u);
    }
  }

  lemma BeforeNow(s: Stage, adj: Adj, j: nat, i: nat, u: Vertex)
    requires LeadsTo(s, adj, j, i, u)
    ensures NotAfter(j, i, s.index, s.n)
  {
  }

  lemma FollowKeeps(s: Stage, adj: Adj, from: Vertex, to: Vertex)
    requires Searching(s, adj, from, to) && Closed(adj) && EdgeLeft(s, adj) && Recorded(s, adj)
    ensures Recorded(Followed(s, adj[s.queue[s.index].v][s.n], to), adj)
  {
    var e := adj[s.queue[s.index].v][s.n];
    var s' := Followed(s, e, to);
    FollowedFollows(s, adj, from, to, e);
    hide Searching, Followed, LatestParent, FirstRoad, FoundBefore;
    forall p: nat | 0 < p < |s'.queue|
      ensures LatestParent(s', adj, p) && FirstRoad(s', adj, p)
    {
      ParentKeeps(s, s', adj, e, p);
      RoadKeeps(s, s', adj, from, to, e, p);
    }
    forall p: nat, q: nat | 0 < p < q < |s'.queue|
      ensures FoundBefore(s', adj, s'.queue[p].v, s'.queue[q].v)
    {
      OrderKeeps(s, s', adj, from, to, e, p, q);
    }
  }
}
