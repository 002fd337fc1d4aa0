/** cross_vertex: a breadth-first search that goes on after it has found its target, and reads off
    the intersections of the walks it knows while parent pointers are still being rewritten. */
module CrossVertex {
  import opened Options
  import opened RoadGraph
  import opened Sequences

  // A path record. Records are never moved, so ancest is a position in the queue, -1 for null;
  // road is the road id of the edge recorded when the entry was made.
  datatype Entry = Entry(v: Vertex, ancest: int, road: int)

  // ---- walks in a graph ----

  // Every edge leads to another vertex of the graph.
  ghost predicate Closed(adj: Adj) {
    forall v, i :: v in adj && 0 <= i < |adj[v]| ==> adj[v][i].vertex in adj && adj[v][i].vertex != v
  }

  lemma SimpleIsClosed(adj: Adj)
    requires Simple(adj)
    ensures Closed(adj)
  {
    forall v, i | v in adj && 0 <= i < |adj[v]|
      ensures adj[v][i].vertex in adj && adj[v][i].vertex != v
    {
      assert adj[v][i] in adj[v];
    }
  }

  ghost predicate IsWalk(adj: Adj, w: seq<Vertex>, from: Vertex, to: Vertex) {
    && |w| > 0 && w[0] == from && w[|w| - 1] == to
    && (forall i :: 0 <= i < |w| ==> w[i] in adj)
    && (forall i :: 0 <= i < |w| - 1 ==> HasEdge(adj[w[i]], w[i + 1]))
  }

  // ---- the queue ----

  ghost predicate Holds(queue: seq<Entry>, v: Vertex) {
    exists i :: 0 <= i < |queue| && queue[i].v == v
  }

  // Entry i has an earlier entry as its parent ...
  ghost predicate ParentBefore(queue: seq<Entry>, i: nat)
    requires i < |queue|
  {
    0 <= queue[i].ancest < i
  }

  // ... from which an edge leads to it.
  ghost predicate ParentEdge(queue: seq<Entry>, adj: Adj, i: nat)
    requires i < |queue| && ParentBefore(queue, i)
  {
    var u := queue[queue[i].ancest].v;
    u in adj && HasEdge(adj[u], queue[i].v)
  }

  // The queue starts with the source, has no vertex twice, and every other entry's parent is an
  // earlier entry with an edge to it.
  ghost predicate WellQueued(queue: seq<Entry>, adj: Adj, from: Vertex) {
    && |queue| > 0 && queue[0].v == from && queue[0].ancest == -1
    && (forall i, j :: 0 <= i < j < |queue| ==> queue[i].v != queue[j].v)
    && (forall i :: 0 <= i < |queue| ==> queue[i].v in adj)
    && (forall i: nat {:trigger ParentEdge(queue, adj, i)} {:trigger ParentBefore(queue, i)} :: 0 < i < |queue| ==>
          ParentBefore(queue, i) && ParentEdge(queue, adj, i))
  }

  // Every parent lies before its child, which is what makes walking back terminate.
  ghost predicate Backward(queue: seq<Entry>) {
    && |queue| > 0 && queue[0].ancest == -1
    && (forall i: nat {:trigger ParentBefore(queue, i)} :: 0 < i < |queue| ==> ParentBefore(queue, i))
  }

  // Entry t[i + 1] is the parent of entry t[i].
  ghost predicate StepBack(queue: seq<Entry>, t: seq<nat>, i: nat)
    requires i + 1 < |t| && t[i] < |queue|
  {
    queue[t[i]].ancest == t[i + 1]
  }

  // The entries from p back to the head.
  ghost function Trail(queue: seq<Entry>, p: nat): (t: seq<nat>)
    requires Backward(queue) && p < |queue|
    ensures |t| > 0 && t[0] == p && t[|t| - 1] == 0
    ensures forall i :: 0 <= i < |t| ==> t[i] < |queue|
    ensures forall i :: 0 < i < |t| ==> t[i] < p
    ensures forall i :: 0 <= i < |t| - 1 ==> t[i] > 0
    ensures forall i: nat {:trigger StepBack(queue, t, i)} :: i < |t| - 1 ==> StepBack(queue, t, i)
  {
    if p == 0 then [0]
    else
      assert ParentBefore(queue, p);
      var rest := Trail(queue, queue[p].ancest);
      var t := [p] + rest;
      assert forall i: nat {:trigger StepBack(queue, t, i)} :: 0 < i < |rest| ==>
        StepBack(queue, rest, i - 1) && t[i] == rest[i - 1] && t[i + 1] == rest[i];
      t
  }

  // The road ids recorded on the way back, one for each entry but the head.
  ghost function Roads(queue: seq<Entry>, t: seq<nat>): (r: seq<int>)
    requires |t| > 0 && forall i :: 0 <= i < |t| ==> t[i] < |queue|
    ensures |r| == |t| - 1 && forall i :: 0 <= i < |r| ==> r[i] == queue[t[i]].road
  {
    seq(|t| - 1, i requires 0 <= i < |t| - 1 => queue[t[i]].road)
  }

  // How often neighbours differ.
  ghost function Changes(roads: seq<int>): nat {
    if |roads| < 2 then 0
    else Changes(roads[..|roads| - 1]) + if roads[|roads| - 2] != roads[|roads| - 1] then 1 else 0
  }

  ghost predicate Turn(roads: seq<int>, i: nat)
    requires i + 1 < |roads|
  {
    roads[i] != roads[i + 1]
  }

  // Going back: from entry t[k] to its parent t[k + 1], until the head.
  lemma TrailStep(queue: seq<Entry>, start: nat, k: nat)
    requires Backward(queue) && start < |queue| && k < |Trail(queue, start)|
    ensures var t := Trail(queue, start); var roads := Roads(queue, t);
      && t[0] == start && t[k] < |queue| && |roads| == |t| - 1
      && (queue[t[k]].ancest == -1 <==> k == |t| - 1)
      && (k < |t| - 1 ==> queue[t[k]].ancest == t[k + 1] < t[k] && roads[k] == queue[t[k]].road)
  {
    var t := Trail(queue, start);
    if k < |t| - 1 {
      assert StepBack(queue, t, k) && ParentBefore(queue, t[k]);
    }
  }

  // The roads change at i and nowhere else.
  ghost predicate OnlyChange(roads: seq<int>, i: nat) {
    && i + 1 < |roads| && Turn(roads, i)
    && (forall j: nat {:trigger Turn(roads, j)} :: j + 1 < |roads| && j != i ==> !Turn(roads, j))
  }

  lemma {:induction false} NoChange(roads: seq<int>)
    ensures Changes(roads) == 0 <==> forall j: nat {:trigger Turn(roads, j)} :: j + 1 < |roads| ==> !Turn(roads, j)
  {
    if |roads| >= 2 {
      var n := |roads| - 1;
      var init := roads[..n];
      NoChange(init);
      assert forall j: nat {:trigger Turn(init, j)} {:trigger Turn(roads, j)} :: j + 1 < n ==> Turn(init, j) == Turn(roads, j);
      if Changes(roads) == 0 { assert !Turn(roads, n - 1); } else if Changes(init) == 0 { assert Turn(roads, n - 1); }
    }
  }

  lemma {:induction false} OneChange(roads: seq<int>)
    ensures Changes(roads) == 1 <==> exists i :: OnlyChange(roads, i)
  {
    if |roads| >= 2 {
      var n := |roads| - 1;
      var init := roads[..n];
      OneChange(init);
      NoChange(init);
      assert forall j: nat {:trigger Turn(init, j)} {:trigger Turn(roads, j)} :: j + 1 < n ==> Turn(init, j) == Turn(roads, j);
      if Turn(roads, n - 1) {
        if Changes(init) == 0 { assert OnlyChange(roads, n - 1); }
        if exists i :: OnlyChange(roads, i) {
          var i :| OnlyChange(roads, i);
          assert i == n - 1;
        }
      } else {
        if exists i :: OnlyChange(init, i) {
          var i :| OnlyChange(init, i);
          assert OnlyChange(roads, i);
        }
        if exists i :: OnlyChange(roads, i) {
          var i :| OnlyChange(roads, i);
          assert OnlyChange(init, i);
        }
      }
    }
  }

  lemma NoRoadNoChange(roads: seq<int>)
    requires roads == []
    ensures Changes(roads) == 0
  {
  }

  lemma ChangesStep(roads: seq<int>, k: nat)
    requires 1 <= k < |roads|
    ensures Turn(roads, k - 1) <==> roads[k - 1] != roads[k]
    ensures Changes(roads[..k + 1]) == Changes(roads[..k]) + if Turn(roads, k - 1) then 1 else 0
  {
    assert roads[..k + 1][..k] == roads[..k];
  }

  lemma ChangeIs(roads: seq<int>, at: nat)
    requires Changes(roads) == 1 && at + 1 < |roads| && Turn(roads, at)
    ensures OnlyChange(roads, at)
  {
    OneChange(roads);
    var i :| OnlyChange(roads, i);
    assert i == at;
  }

  // The vertex at which the recorded roads change on the way back from p, when they change once.
  ghost function Mutation(queue: seq<Entry>, p: nat): Option<Vertex>
    requires Backward(queue) && p < |queue|
  {
    var t := Trail(queue, p);
    var roads := Roads(queue, t);
    if exists i :: OnlyChange(roads, i) then
      var i :| OnlyChange(roads, i);
      Some(queue[t[i + 1]].v)
    else None
  }

  lemma MutationAt(queue: seq<Entry>, p: nat, i: nat)
    requires Backward(queue) && p < |queue| && OnlyChange(Roads(queue, Trail(queue, p)), i)
    ensures Mutation(queue, p) == Some(queue[Trail(queue, p)[i + 1]].v)
  {
    var roads := Roads(queue, Trail(queue, p));
    assert forall j: nat :: OnlyChange(roads, j) ==> j == i;
  }

  lemma NoMutation(queue: seq<Entry>, p: nat)
    requires Backward(queue) && p < |queue| && Changes(Roads(queue, Trail(queue, p))) != 1
    ensures Mutation(queue, p) == None
  {
    OneChange(Roads(queue, Trail(queue, p)));
  }

  // What print_crossnode knows after k roads: how often they changed, and the first vertex at which
  // they did.
  ghost predicate RoadsSeen(queue: seq<Entry>, t: seq<nat>, k: nat, at: nat, ver: Option<Vertex>, count: nat)
    requires |t| > 0 && forall i :: 0 <= i < |t| ==> t[i] < |queue|
  {
    var roads := Roads(queue, t);
    && 1 <= k < |t| && count == Changes(roads[..k]) && (ver.Some? <==> count > 0)
    && (ver.Some? ==> at < k - 1 && Turn(roads, at) && ver.value == queue[t[at + 1]].v)
  }

  lemma FirstRoad(queue: seq<Entry>, t: seq<nat>)
    requires |t| > 1 && forall i :: 0 <= i < |t| ==> t[i] < |queue|
    ensures RoadsSeen(queue, t, 1, 0, None, 0)
  {
  }

  lemma OneMoreRoad(queue: seq<Entry>, t: seq<nat>, k: nat, at: nat, ver: Option<Vertex>, count: nat)
    requires |t| > 0 && forall i :: 0 <= i < |t| ==> t[i] < |queue|
    requires RoadsSeen(queue, t, k, at, ver, count) && k + 1 < |t|
    ensures var roads := Roads(queue, t);
      if roads[k - 1] == roads[k] then RoadsSeen(queue, t, k + 1, at, ver, count)
      else if ver.None? then RoadsSeen(queue, t, k + 1, k - 1, Some(queue[t[k]].v), count + 1)
      else RoadsSeen(queue, t, k + 1, at, ver, count + 1)
  {
    hide Changes;
    ChangesStep(Roads(queue, t), k);
  }

  lemma AllRoadsSeen(queue: seq<Entry>, t: seq<nat>, at: nat, ver: Option<Vertex>, count: nat)
    requires |t| > 0 && forall i :: 0 <= i < |t| ==> t[i] < |queue|
    requires RoadsSeen(queue, t, |t| - 1, at, ver, count)
    ensures var roads := Roads(queue, t);
      && count == Changes(roads)
      && (count == 1 ==> OnlyChange(roads, at) && ver == Some(queue[t[at + 1]].v))
  {
    hide Changes;
    var roads := Roads(queue, t);
    assert roads[..|t| - 1] == roads;
    if count == 1 { ChangeIs(roads, at); }
  }

  // ---- find_vertex ----

  // The position of v in the queue, |queue| when it is not there.
  ghost function Position(queue: seq<Entry>, v: Vertex): (p: nat)
    ensures p <= |queue| && (p < |queue| ==> queue[p].v == v)
    ensures forall i :: 0 <= i < p ==> queue[i].v != v
    ensures p < |queue| <==> Holds(queue, v)
  {
    if queue == [] then 0
    else if queue[0].v == v then 0
    else 1 + Position(queue[1..], v)
  }

  ghost predicate IsFirst(queue: seq<Entry>, i: nat, v: Vertex)
    requires i < |queue|
  {
    queue[i].v == v && forall j :: 0 <= j < i ==> queue[j].v != v
  }

  // find_vertex gives v the parent index when it finds it at index or later.
  ghost function Reparented(queue: seq<Entry>, index: nat, v: Vertex): seq<Entry> {
    var p := Position(queue, v);
    if index <= p < |queue| then queue[p := queue[p].(ancest := index)] else queue
  }

  lemma PositionIs(queue: seq<Entry>, v: Vertex, p: nat)
    requires p <= |queue| && (p < |queue| ==> queue[p].v == v) && forall i :: 0 <= i < p ==> queue[i].v != v
    ensures Position(queue, v) == p
  {
  }

  // An edge from entry index to v: the queue stays well formed when v is given index as parent ...
  lemma ReparentKeeps(queue: seq<Entry>, adj: Adj, from: Vertex, index: nat, v: Vertex)
    requires WellQueued(queue, adj, from) && index < |queue|
    requires HasEdge(adj[queue[index].v], v) && v != queue[index].v
    ensures var queue' := Reparented(queue, index, v);
      && WellQueued(queue', adj, from) && |queue'| == |queue|
      && forall i :: 0 <= i < |queue| ==> queue'[i].v == queue[i].v
  {
    var queue' := Reparented(queue, index, v);
    forall i: nat | 0 < i < |queue'|
      ensures ParentBefore(queue', i) && ParentEdge(queue', adj, i)
    {
      assert ParentBefore(queue, i) && ParentEdge(queue, adj, i);
    }
  }

  // ... and when v is new and put at the end.
  lemma AppendKeeps(queue: seq<Entry>, adj: Adj, from: Vertex, index: nat, v: Vertex, road: int)
    requires WellQueued(queue, adj, from) && index < |queue| && !Holds(queue, v)
    requires HasEdge(adj[queue[index].v], v) && v in adj
    ensures WellQueued(queue + [Entry(v, index, road)], adj, from)
  {
    var queue' := queue + [Entry(v, index, road)];
    forall i, j | 0 <= i < j < |queue'|
      ensures queue'[i].v != queue'[j].v
    {
      if j == |queue| { assert queue[i].v != v; }
    }
    forall i: nat | 0 < i < |queue'|
      ensures ParentBefore(queue', i) && ParentEdge(queue', adj, i)
    {
      if i < |queue| { assert ParentBefore(queue, i) && ParentEdge(queue, adj, i); }
    }
  }

  lemma WellQueuedBackward(queue: seq<Entry>, adj: Adj, from: Vertex)
    requires WellQueued(queue, adj, from)
    ensures Backward(queue)
  {
  }

  lemma ParentOf(queue: seq<Entry>, adj: Adj, from: Vertex, p: nat) returns (q: nat)
    requires WellQueued(queue, adj, from) && 0 < p < |queue|
    ensures q == queue[p].ancest < p && queue[q].v in adj && HasEdge(adj[queue[q].v], queue[p].v) && queue[p].v in adj
  {
    assert ParentBefore(queue, p) && ParentEdge(queue, adj, p);
    q := queue[p].ancest;
  }

  // w read from its end and t from its start name the same vertex at k.
  ghost predicate Spelt(w: seq<Vertex>, queue: seq<Entry>, t: seq<nat>, k: nat)
    requires k < |t| == |w| && t[k] < |queue|
  {
    w[|t| - 1 - k] == queue[t[k]].v
  }

  // The entries on the way back from p spell a walk from the source to p.
  lemma {:induction false} TrailIsWalk(queue: seq<Entry>, adj: Adj, from: Vertex, p: nat) returns (w: seq<Vertex>)
    requires WellQueued(queue, adj, from) && p < |queue| && Backward(queue)
    ensures var t := Trail(queue, p);
      && |w| == |t| && IsWalk(adj, w, from, queue[p].v)
      && forall k: nat {:trigger Spelt(w, queue, t, k)} :: k < |t| ==> Spelt(w, queue, t, k)
    decreases p
  {
    if p == 0 {
      w := [from];
    } else {
      hide WellQueued, IsWalk, HasEdge;
      var q := ParentOf(queue, adj, from, p);
      var w0 := TrailIsWalk(queue, adj, from, q);
      w := w0 + [queue[p].v];
      WalkOn(adj, w0, from, queue[q].v, queue[p].v);
      var t, t0 := Trail(queue, p), Trail(queue, q);
      forall k: nat | k < |t|
        ensures Spelt(w, queue, t, k)
      {
        if k > 0 { assert Spelt(w0, queue, t0, k - 1); }
      }
    }
  }

  lemma WalkOn(adj: Adj, w: seq<Vertex>, from: Vertex, u: Vertex, v: Vertex)
    requires IsWalk(adj, w, from, u) && HasEdge(adj[u], v) && v in adj
    ensures IsWalk(adj, w + [v], from, v)
  {
  }

  // x lies strictly inside a walk from one vertex to another.
  ghost predicate Inside(adj: Adj, w: seq<Vertex>, from: Vertex, x: Vertex, to: Vertex) {
    IsWalk(adj, w, from, to) && exists k :: 0 < k < |w| - 1 && w[k] == x
  }

  lemma TrailInside(queue: seq<Entry>, adj: Adj, from: Vertex, p: nat, k: nat) returns (w: seq<Vertex>)
    requires WellQueued(queue, adj, from) && p < |queue| && Backward(queue) && 0 < k < |Trail(queue, p)| - 1
    ensures var x := queue[Trail(queue, p)[k]].v;
      Inside(adj, w, from, x, queue[p].v) && x != from && x != queue[p].v
  {
    var t := Trail(queue, p);
    w := TrailIsWalk(queue, adj, from, p);
    assert Spelt(w, queue, t, k) && 0 < t[k] < p;
  }

  // ---- the whole search ----

  // The first n edges in es lead to vertices in the queue.
  ghost predicate Explored(queue: seq<Entry>, es: seq<Edge>, n: nat) {
    n <= |es| && forall k :: 0 <= k < n ==> Holds(queue, es[k].vertex)
  }

  // All entries before index have been processed, and none of them is the target.
  ghost predicate Processed(queue: seq<Entry>, adj: Adj, index: nat, to: Vertex) {
    index <= |queue| && forall j :: 0 <= j < index ==>
      queue[j].v in adj && queue[j].v != to && Explored(queue, adj[queue[j].v], |adj[queue[j].v]|)
  }

  lemma ExploredGrows(queue: seq<Entry>, queue': seq<Entry>, es: seq<Edge>, n: nat)
    requires Explored(queue, es, n) && |queue| <= |queue'|
    requires forall i :: 0 <= i < |queue| ==> queue'[i].v == queue[i].v
    ensures Explored(queue', es, n)
  {
    forall k | 0 <= k < n
      ensures Holds(queue', es[k].vertex)
    {
      var i :| 0 <= i < |queue| && queue[i].v == es[k].vertex;
      assert queue'[i].v == es[k].vertex;
    }
  }

  lemma ProcessedGrows(queue: seq<Entry>, queue': seq<Entry>, adj: Adj, index: nat, to: Vertex)
    requires Processed(queue, adj, index, to) && |queue| <= |queue'|
    requires forall i :: 0 <= i < |queue| ==> queue'[i].v == queue[i].v
    ensures Processed(queue', adj, index, to)
  {
    forall j | 0 <= j < index
      ensures Explored(queue', adj[queue[j].v], |adj[queue[j].v]|)
    {
      ExploredGrows(queue, queue', adj[queue[j].v], |adj[queue[j].v]|);
    }
  }

  // A queue that has been processed to its end holds every vertex a walk from the source reaches.
  lemma {:induction false} QueueIsComplete(queue: seq<Entry>, adj: Adj, from: Vertex, to: Vertex, w: seq<Vertex>, i: nat)
    requires WellQueued(queue, adj, from) && Processed(queue, adj, |queue|, to)
    requires i < |w| && w[0] == from && (forall k :: 0 <= k < |w| ==> w[k] in adj)
    requires forall k :: 0 <= k < |w| - 1 ==> HasEdge(adj[w[k]], w[k + 1])
    ensures Holds(queue, w[i])
  {
    if i > 0 {
      QueueIsComplete(queue, adj, from, to, w, i - 1);
      var j :| 0 <= j < |queue| && queue[j].v == w[i - 1];
      assert HasEdge(adj[w[i - 1]], w[i - 1 + 1]);
      var k :| 0 <= k < |adj[w[i - 1]]| && adj[w[i - 1]][k].vertex == w[i];
      assert Explored(queue, adj[queue[j].v], |adj[queue[j].v]|);
    }
  }

  lemma {:induction false} QueueBound(queue: seq<Entry>, vs: set<Vertex>)
    requires forall i, j :: 0 <= i < j < |queue| ==> queue[i].v != queue[j].v
    requires forall i :: 0 <= i < |queue| ==> queue[i].v in vs
    ensures |queue| <= |vs|
  {
    if queue != [] {
      var n := |queue| - 1;
      QueueBound(queue[..n], vs - {queue[n].v});
    }
  }

  class Search {
    var queue: seq<Entry>

    constructor (from: Vertex)
      ensures queue == [Entry(from, -1, 0)]
    {
      queue := [Entry(from, -1, 0)];
    }

    // find_vertex
    method FindVertex(index: nat, v: Vertex) returns (found: bool)
      requires index < |queue|
      modifies this
      ensures queue == (if found then Reparented(old(queue), index, v) else old(queue)) && found == Holds(old(queue), v)
      ensures |queue| == |old(queue)| && forall i: nat :: i < |queue| ==>
        queue[i] == if IsFirst(old(queue), i, v) && index <= i then Entry(v, index, old(queue)[i].road) else old(queue)[i]
    {
      var flag := false;
      var temp := 0;
      while temp < |queue|
        invariant queue == old(queue) && 0 <= temp <= |queue|
        invariant flag == (temp > index)
        invariant forall i :: 0 <= i < temp ==> queue[i].v != v
      {
        if temp == index { flag := true; }
        if queue[temp].v == v {
          PositionIs(queue, v, temp);
          if flag { queue := queue[temp := queue[temp].(ancest := index)]; }
          return true;
        }
        temp := temp + 1;
      }
      PositionIs(queue, v, |queue|);
      found := false;
    }

    // print_crossnode: a vertex exactly when the recorded road ids change once on the way back
    // from start, and then it is the vertex at that change.
    method PrintCrossnode(start: nat) returns (r: Option<Vertex>)
      requires Backward(queue) && start < |queue|
      ensures r == Mutation(queue, start)
    {
      hide *;
      ghost var t := Trail(queue, start);
      ghost var roads := Roads(queue, t);
      ghost var at := 0;
      TrailStep(queue, start, 0);
      if queue[start].ancest == -1 {
        NoRoadNoChange(roads);
        NoMutation(queue, start);
        return None;
      }
      var second := queue[start].road;
      var p := queue[start].ancest;
      var ver := None;
      var count := 0;
      ghost var k := 1;
      TrailStep(queue, start, k);
      FirstRoad(queue, t);
      while queue[p].ancest != -1
        invariant 1 <= k < |t| && p == t[k] && 0 <= p < |queue|
        invariant queue[p].ancest == -1 <==> k == |t| - 1
        invariant second == roads[k - 1] && RoadsSeen(queue, t, k, at, ver, count)
        decreases |t| - k
      {
        var first := second;
        second := queue[p].road;
        TrailStep(queue, start, k);
        TrailStep(queue, start, k + 1);
        OneMoreRoad(queue, t, k, at, ver, count);
        if first != second {
          if ver == None { ver := Some(queue[p].v); at := k - 1; }
          count := count + 1;
        }
        p := queue[p].ancest;
        k := k + 1;
      }
      AllRoadsSeen(queue, t, at, ver, count);
      if count == 1 {
        MutationAt(queue, start, at);
        return ver;
      } else {
        NoMutation(queue, start);
        return None;
      }
    }
  }

  // ---- steps of the search ----

  // Where the search is: entry index is being processed, n of its edges have been followed, target
  // is the entry made for the target.
  datatype Stage = Stage(queue: seq<Entry>, index: nat, n: nat, target: int)

  // The entry of `to` when there is one behind the head, -1 otherwise.
  ghost function TargetOf(queue: seq<Entry>, to: Vertex): int {
    var p := Position(queue, to);
    if 0 < p < |queue| then p else -1
  }

  ghost predicate Searching(s: Stage, adj: Adj, from: Vertex, to: Vertex) {
    && WellQueued(s.queue, adj, from) && Processed(s.queue, adj, s.index, to) && s.target == TargetOf(s.queue, to)
    && (s.index < |s.queue| ==> Explored(s.queue, adj[s.queue[s.index].v], s.n))
    && (s.index == |s.queue| ==> s.n == 0)
  }

  // The next edge to follow is e.
  ghost predicate AtEdge(s: Stage, adj: Adj, e: Edge) {
    EdgeLeft(s, adj) && e == adj[s.queue[s.index].v][s.n]
  }

  ghost predicate EdgeLeft(s: Stage, adj: Adj) {
    s.index < |s.queue| && s.queue[s.index].v in adj && s.n < |adj[s.queue[s.index].v]|
  }

  // All edges of the entry, which is not the target, have been followed.
  ghost predicate AtEnd(s: Stage, adj: Adj, to: Vertex) {
    && s.index < |s.queue| && s.queue[s.index].v in adj && s.queue[s.index].v != to
    && s.n == |adj[s.queue[s.index].v]|
  }

  // Following e: its end gets entry index as parent, in its old place or in a new last entry.
  ghost function Followed(s: Stage, e: Edge, to: Vertex): Stage {
    var queue' :=
      if Holds(s.queue, e.vertex) then Reparented(s.queue, s.index, e.vertex)
      else s.queue + [Entry(e.vertex, s.index, e.roadId)];
    s.(queue := queue', n := s.n + 1, target := TargetOf(queue', to))
  }

  ghost function Advanced(s: Stage): Stage {
    s.(index := s.index + 1, n := 0)
  }

  lemma SearchStarts(adj: Adj, from: Vertex, to: Vertex)
    requires from in adj
    ensures Searching(Stage([Entry(from, -1, 0)], 0, 0, -1), adj, from, to)
  {
  }

  // The same vertices in the same places.
  lemma SamePosition(queue: seq<Entry>, queue': seq<Entry>, v: Vertex)
    requires |queue| <= |queue'| && Holds(queue, v)
    requires forall i :: 0 <= i < |queue| ==> queue'[i].v == queue[i].v
    ensures Holds(queue', v) && Position(queue', v) == Position(queue, v)
  {
    var p := Position(queue, v);
    assert queue'[p].v == v;
    PositionIs(queue', v, p);
  }

  lemma SameTarget(queue: seq<Entry>, queue': seq<Entry>, to: Vertex)
    requires |queue| == |queue'| && forall i :: 0 <= i < |queue| ==> queue'[i].v == queue[i].v
    ensures TargetOf(queue', to) == TargetOf(queue, to)
  {
    if Holds(queue, to) {
      SamePosition(queue, queue', to);
    } else if Holds(queue', to) {
      SamePosition(queue', queue, to);
    }
  }

  lemma NewTarget(queue: seq<Entry>, last: Entry, to: Vertex)
    requires queue != [] && !Holds(queue, last.v)
    ensures TargetOf(queue + [last], to) == if last.v == to then |queue| else TargetOf(queue, to)
  {
    var queue' := queue + [last];
    if last.v == to {
      assert queue'[|queue|].v == to;
      PositionIs(queue', to, |queue|);
    } else if Holds(queue, to) {
      SamePosition(queue, queue', to);
    } else {
      PositionIs(queue', to, |queue'|);
    }
  }

  lemma EdgeThere(s: Stage, adj: Adj, e: Edge)
    requires AtEdge(s, adj, e) && Closed(adj)
    ensures var u := s.queue[s.index].v; HasEdge(adj[u], e.vertex) && e.vertex in adj && e.vertex != u
  {
  }

  lemma OneMoreExplored(queue: seq<Entry>, es: seq<Edge>, n: nat)
    requires Explored(queue, es, n) && n < |es| && Holds(queue, es[n].vertex)
    ensures Explored(queue, es, n + 1)
  {
  }

  // Following an edge whose end is in the queue: only the parent changes ...
  lemma EdgeKnown(s: Stage, adj: Adj, from: Vertex, to: Vertex, e: Edge)
    requires Searching(s, adj, from, to) && Closed(adj) && AtEdge(s, adj, e) && Holds(s.queue, e.vertex)
    ensures var s' := Followed(s, e, to);
      && Searching(s', adj, from, to) && s'.queue == Reparented(s.queue, s.index, e.vertex)
      && s'.target == s.target && |s'.queue| == |s.queue| && s'.queue[s.index].v == s.queue[s.index].v
  {
    hide Explored, TargetOf, Reparented, HasEdge, WellQueued;
    EdgeThere(s, adj, e);
    var queue', u := Reparented(s.queue, s.index, e.vertex), s.queue[s.index].v;
    ReparentKeeps(s.queue, adj, from, s.index, e.vertex);
    ProcessedGrows(s.queue, queue', adj, s.index, to);
    ExploredGrows(s.queue, queue', adj[u], s.n);
    SamePosition(s.queue, queue', e.vertex);
    OneMoreExplored(queue', adj[u], s.n);
    SameTarget(s.queue, queue', to);
  }

  // ... or is new.
  lemma EdgeNew(s: Stage, adj: Adj, from: Vertex, to: Vertex, e: Edge)
    requires Searching(s, adj, from, to) && Closed(adj) && AtEdge(s, adj, e) && !Holds(s.queue, e.vertex)
    ensures var s' := Followed(s, e, to);
      && Searching(s', adj, from, to) && s'.queue == s.queue + [Entry(e.vertex, s.index, e.roadId)]
      && s'.target == if e.vertex == to then |s.queue| else s.target
  {
    hide Explored, TargetOf, HasEdge, WellQueued;
    EdgeThere(s, adj, e);
    var last, u := Entry(e.vertex, s.index, e.roadId), s.queue[s.index].v;
    var queue' := s.queue + [last];
    AppendKeeps(s.queue, adj, from, s.index, e.vertex, e.roadId);
    ProcessedGrows(s.queue, queue', adj, s.index, to);
    ExploredGrows(s.queue, queue', adj[u], s.n);
    assert queue'[|s.queue|].v == e.vertex && Holds(queue', e.vertex);
    OneMoreExplored(queue', adj[u], s.n);
    NewTarget(s.queue, last, to);
  }

  lemma EntryDone(s: Stage, adj: Adj, from: Vertex, to: Vertex)
    requires Searching(s, adj, from, to) && AtEnd(s, adj, to)
    ensures Searching(Advanced(s), adj, from, to)
  {
  }

  // ---- runs ----

  // The intersection read off on the way back from the target's entry.
  ghost function Crossing(queue: seq<Entry>, to: Vertex): Option<Vertex> {
    var p := TargetOf(queue, to);
    if p == -1 || !Backward(queue) then None else Mutation(queue, p)
  }

  ghost predicate StepAt(trace: seq<Stage>, k: nat, adj: Adj, to: Vertex)
    requires k + 1 < |trace|
  {
    || (AtEnd(trace[k], adj, to) && trace[k + 1] == Advanced(trace[k]))
    || (!Ended(trace[k], to) && EdgeLeft(trace[k], adj)
        && trace[k + 1] == Followed(trace[k], adj[trace[k].queue[trace[k].index].v][trace[k].n], to))
  }

  // The stages of the search from its start, one step after the other.
  ghost predicate Run(trace: seq<Stage>, adj: Adj, from: Vertex, to: Vertex) {
    && |trace| > 0 && trace[0] == Stage([Entry(from, -1, 0)], 0, 0, -1)
    && (forall k: nat {:trigger StepAt(trace, k, adj, to)} :: k + 1 < |trace| ==> StepAt(trace, k, adj, to))
    && (forall k :: 0 <= k < |trace| ==> Searching(trace[k], adj, from, to))
  }

  // There is nothing left to do, or the target's turn has come.
  ghost predicate Ended(s: Stage, to: Vertex) {
    s.index < |s.queue| ==> s.queue[s.index].v == to
  }

  // x has been read off before y.
  ghost predicate Sooner(trace: seq<Stage>, to: Vertex, x: Vertex, y: Vertex) {
    exists k :: 0 <= k < |trace| && Crossing(trace[k].queue, to) == Some(x)
      && forall l :: 0 <= l <= k ==> Crossing(trace[l].queue, to) != Some(y)
  }

  // list holds the intersections read off in the stages of a run, each once, in that order.
  ghost predicate Collected(trace: seq<Stage>, to: Vertex, list: seq<Vertex>) {
    && (forall a, b :: 0 <= a < b < |list| ==> Sooner(trace, to, list[a], list[b]))
    && Distinct(list)
    && (forall k :: 0 <= k < |trace| && Crossing(trace[k].queue, to).Some? ==> Crossing(trace[k].queue, to).value in list)
    && (forall x :: x in list ==> exists k :: 0 <= k < |trace| && Crossing(trace[k].queue, to) == Some(x))
  }

  lemma RunStarts(adj: Adj, from: Vertex, to: Vertex)
    requires from in adj
    ensures Run([Stage([Entry(from, -1, 0)], 0, 0, -1)], adj, from, to)
    ensures Collected([Stage([Entry(from, -1, 0)], 0, 0, -1)], to, [])
  {
    SearchStarts(adj, from, to);
  }

  lemma RunGoesOn(trace: seq<Stage>, adj: Adj, from: Vertex, to: Vertex, s': Stage)
    requires Run(trace, adj, from, to) && Searching(s', adj, from, to)
    requires var s := trace[|trace| - 1];
      (AtEnd(s, adj, to) && s' == Advanced(s))
      || (!Ended(s, to) && EdgeLeft(s, adj) && s' == Followed(s, adj[s.queue[s.index].v][s.n], to))
    ensures Run(trace + [s'], adj, from, to)
  {
    hide AtEnd, Followed, Searching;
    var trace' := trace + [s'];
    forall k: nat | k + 1 < |trace'|
      ensures StepAt(trace', k, adj, to)
    {
      if k + 1 < |trace| { assert StepAt(trace, k, adj, to); }
    }
  }

  // The list after one more stage: the intersection read off there, unless it is listed already.
  lemma CollectsOn(trace: seq<Stage>, to: Vertex, list: seq<Vertex>, s': Stage, list': seq<Vertex>)
    requires Collected(trace, to, list)
    requires var x := Crossing(s'.queue, to);
      list' == if x.Some? && x.value !in list then list + [x.value] else list
    ensures Collected(trace + [s'], to, list')
  {
    hide Crossing, Distinct;
    var trace' := trace + [s'];
    var x := Crossing(s'.queue, to);
    if x.Some? && x.value !in list { Appended(list, x.value); }
    forall a, b | 0 <= a < b < |list'|
      ensures Sooner(trace', to, list'[a], list'[b])
    {
      if b < |list| { SoonerStays(trace, to, list[a], list[b], s'); } else { LateIsLast(trace, to, list, a, list'[b], s'); }
    }
    forall y | y in list'
      ensures exists k :: 0 <= k < |trace'| && Crossing(trace'[k].queue, to) == Some(y)
    {
      if y in list {
        var k :| 0 <= k < |trace| && Crossing(trace[k].queue, to) == Some(y);
        assert trace'[k] == trace[k];
      } else {
        assert trace'[|trace|] == s';
      }
    }
  }

  lemma SoonerStays(trace: seq<Stage>, to: Vertex, x: Vertex, y: Vertex, s': Stage)
    requires Sooner(trace, to, x, y)
    ensures Sooner(trace + [s'], to, x, y)
  {
    hide Crossing;
    var k :| 0 <= k < |trace| && Crossing(trace[k].queue, to) == Some(x)
      && forall l :: 0 <= l <= k ==> Crossing(trace[l].queue, to) != Some(y);
    var trace' := trace + [s'];
    assert forall l :: 0 <= l < |trace| ==> trace'[l] == trace[l];
  }

  lemma LateIsLast(trace: seq<Stage>, to: Vertex, list: seq<Vertex>, a: nat, y: Vertex, s': Stage)
    requires Collected(trace, to, list) && a < |list| && y !in list
    ensures Sooner(trace + [s'], to, list[a], y)
  {
    hide Crossing, Distinct, Sooner;
    assert list[a] in list;
    var k :| 0 <= k < |trace| && Crossing(trace[k].queue, to) == Some(list[a]);
    assert forall l :: 0 <= l <= k ==> Crossing(trace[l].queue, to) != Some(y);
    SoonerIf(trace, to, k, list[a], y);
    SoonerStays(trace, to, list[a], y, s');
  }

  lemma SoonerIf(trace: seq<Stage>, to: Vertex, k: nat, x: Vertex, y: Vertex)
    requires k < |trace| && Crossing(trace[k].queue, to) == Some(x)
    requires forall l :: 0 <= l <= k ==> Crossing(trace[l].queue, to) != Some(y)
    ensures Sooner(trace, to, x, y)
  {
    hide Crossing;
  }

  // An intersection read off anywhere in the run lies inside a walk between the two ends.
  lemma CrossingInside(s: Stage, adj: Adj, from: Vertex, to: Vertex) returns (w: seq<Vertex>)
    requires Searching(s, adj, from, to) && Crossing(s.queue, to).Some?
    ensures var x := Crossing(s.queue, to).value;
      Inside(adj, w, from, x, to) && x != from && x != to
  {
    hide WellQueued, Processed, Explored, Inside;
    var p := TargetOf(s.queue, to);
    var t := Trail(s.queue, p);
    var roads := Roads(s.queue, t);
    var i: nat :| OnlyChange(roads, i) && Crossing(s.queue, to).value == s.queue[t[i + 1]].v;
    w := TrailInside(s.queue, adj, from, p, i + 1);
  }

  // The search has ended: the target is in the queue exactly when a walk leads to it.
  lemma TargetReached(s: Stage, adj: Adj, from: Vertex, to: Vertex)
    requires Searching(s, adj, from, to) && Ended(s, to)
    ensures Holds(s.queue, to) <==> exists w :: IsWalk(adj, w, from, to)
    ensures |s.queue| <= |adj|
  {
    hide IsWalk;
    QueueBound(s.queue, adj.Keys);
    WellQueuedBackward(s.queue, adj, from);
    if Holds(s.queue, to) {
      var w := TrailIsWalk(s.queue, adj, from, Position(s.queue, to));
    }
    if w :| IsWalk(adj, w, from, to) {
      if s.index == |s.queue| { WalkIsQueued(s, adj, from, to, w); }
    }
  }

  lemma WalkIsQueued(s: Stage, adj: Adj, from: Vertex, to: Vertex, w: seq<Vertex>)
    requires Searching(s, adj, from, to) && s.index == |s.queue| && IsWalk(adj, w, from, to)
    ensures Holds(s.queue, to)
  {
    hide WellQueued, Processed;
    QueueIsComplete(s.queue, adj, from, to, w, |w| - 1);
  }

  lemma CrossingIsMutation(queue: seq<Entry>, to: Vertex)
    requires Backward(queue) && TargetOf(queue, to) != -1
    ensures Crossing(queue, to) == Mutation(queue, TargetOf(queue, to))
  {
  }

  // What the search knows between two steps.
  ghost predicate Underway(trace: seq<Stage>, adj: Adj, from: Vertex, to: Vertex, list: seq<Vertex>,
                           queue: seq<Entry>, index: nat, n: nat, target: int)
  {
    && Run(trace, adj, from, to) && Collected(trace, to, list)
    && trace[|trace| - 1] == Stage(queue, index, n, target)
  }

  lemma EntryAt(trace: seq<Stage>, adj: Adj, from: Vertex, to: Vertex, list: seq<Vertex>,
                queue: seq<Entry>, index: nat, n: nat, target: int)
    requires Underway(trace, adj, from, to, list, queue, index, n, target)
    ensures index <= |queue| <= |adj| && Backward(queue) && target == TargetOf(queue, to) < |queue|
    ensures index < |queue| ==> queue[index].v in adj && n <= |adj[queue[index].v]|
  {
    var s := trace[|trace| - 1];
    assert Searching(s, adj, from, to);
    QueueBound(s.queue, adj.Keys);
    WellQueuedBackward(queue, adj, from);
  }

  // What following the next edge does to the queue and the target.
  ghost predicate QueueFollowed(queue: seq<Entry>, index: nat, e: Edge, to: Vertex, target: int,
                                queue': seq<Entry>, target': int)
  {
    && queue' == (if Holds(queue, e.vertex) then Reparented(queue, index, e.vertex) else queue + [Entry(e.vertex, index, e.roadId)])
    && target' == if !Holds(queue, e.vertex) && e.vertex == to then |queue| else target
  }

  lemma EdgeFollowed(trace: seq<Stage>, adj: Adj, from: Vertex, to: Vertex, list: seq<Vertex>,
                     queue: seq<Entry>, index: nat, n: nat, target: int, queue': seq<Entry>, target': int)
    requires Underway(trace, adj, from, to, list, queue, index, n, target) && Closed(adj)
    requires index < |queue| && queue[index].v in adj && n < |adj[queue[index].v]|
    requires QueueFollowed(queue, index, adj[queue[index].v][n], to, target, queue', target')
    ensures var s' := Followed(Stage(queue, index, n, target), adj[queue[index].v][n], to);
      s' == Stage(queue', index, n + 1, target') && Searching(s', adj, from, to)
    ensures Backward(queue') && -1 <= target' == TargetOf(queue', to) < |queue'|
    ensures |queue'| >= |queue| && queue'[index].v == queue[index].v
  {
    hide Run, Collected, Crossing, WellQueued, Processed, Explored, Reparented;
    LastStage(trace, adj, from, to);
    var s := trace[|trace| - 1];
    var e := adj[queue[index].v][n];
    if Holds(queue, e.vertex) { EdgeKnown(s, adj, from, to, e); } else { EdgeNew(s, adj, from, to, e); }
    WellQueuedBackward(queue', adj, from);
  }

  // One turn of the inner loop: the edge is followed and what is read off then is listed.
  lemma EdgeDone(trace: seq<Stage>, adj: Adj, from: Vertex, to: Vertex, list: seq<Vertex>,
                 queue: seq<Entry>, index: nat, n: nat, target: int, queue': seq<Entry>, target': int, list': seq<Vertex>)
    returns (s': Stage)
    requires Underway(trace, adj, from, to, list, queue, index, n, target) && Closed(adj)
    requires index < |queue| && queue[index].v in adj && n < |adj[queue[index].v]|
    requires queue[index].v != to
    requires QueueFollowed(queue, index, adj[queue[index].v][n], to, target, queue', target')
    requires var x := Crossing(queue', to);
      list' == if x.Some? && x.value !in list then list + [x.value] else list
    ensures Underway(trace + [s'], adj, from, to, list', queue', index, n + 1, target')
  {
    hide Run, Collected, Crossing, Searching, Followed, QueueFollowed;
    EdgeFollowed(trace, adj, from, to, list, queue, index, n, target, queue', target');
    LastStage(trace, adj, from, to);
    s' := Followed(Stage(queue, index, n, target), adj[queue[index].v][n], to);
    RunGoesOn(trace, adj, from, to, s');
    CollectsOn(trace, to, list, s', list');
  }

  lemma LastStage(trace: seq<Stage>, adj: Adj, from: Vertex, to: Vertex)
    requires Run(trace, adj, from, to)
    ensures |trace| > 0 && Searching(trace[|trace| - 1], adj, from, to)
  {
  }

  // The end of the inner loop.
  lemma EntryLeft(trace: seq<Stage>, adj: Adj, from: Vertex, to: Vertex, list: seq<Vertex>,
                  queue: seq<Entry>, index: nat, n: nat, target: int)
    requires Underway(trace, adj, from, to, list, queue, index, n, target)
    requires index < |queue| && queue[index].v in adj && n == |adj[queue[index].v]| && queue[index].v != to
    ensures Underway(trace + [Stage(queue, index + 1, 0, target)], adj, from, to, list, queue, index + 1, 0, target)
  {
    hide Run, Collected, Crossing, Searching;
    LastStage(trace, adj, from, to);
    var s := trace[|trace| - 1];
    var s' := Advanced(s);
    EntryDone(s, adj, from, to);
    RunGoesOn(trace, adj, from, to, s');
    SameStageCollected(trace, to, list, s');
  }

  // A stage with the same queue reads off nothing new.
  lemma SameStageCollected(trace: seq<Stage>, to: Vertex, list: seq<Vertex>, s': Stage)
    requires Collected(trace, to, list) && trace != [] && s'.queue == trace[|trace| - 1].queue
    ensures Collected(trace + [s'], to, list)
  {
    hide Crossing;
    CollectsOn(trace, to, list, s', list);
  }

  // No target entry, nothing read off.
  lemma NoTargetNoCrossing(queue: seq<Entry>, to: Vertex)
    requires TargetOf(queue, to) == -1
    ensures Crossing(queue, to) == None
  {
  }

  // cross_vertex
  method FindCrossings(from: Vertex, to: Vertex, ghost all: seq<Vertex>) returns (list: seq<Vertex>, ghost trace: seq<Stage>)
    requires Closed(Adjacency(all)) && from in all && to in all
    requires forall u, v :: u in all && v in all && u.id == v.id ==> u == v
    ensures Run(trace, Adjacency(all), from, to) && Ended(trace[|trace| - 1], to) && Collected(trace, to, list)
    ensures Distinct(list) && (from == to ==> list == [])
    ensures forall x :: x in list ==> x != from && x != to && exists w :: Inside(Adjacency(all), w, from, x, to)
  {
    hide *;
    ghost var adj := Adjacency(all);
    var search := new Search(from);
    list := [];
    var index, target, flag := 0, -1, false;
    trace := [Stage(search.queue, 0, 0, -1)];
    InAdjacency(all, from);
    UnderwayStarts(trace, adj, from, to, list, search.queue);
    while index < |search.queue|
      invariant fresh(search) && adj == Adjacency(all) && flag == (target != -1)
      invariant Underway(trace, adj, from, to, list, search.queue, index, 0, target) && 0 <= index <= |search.queue|
      decreases |adj| - index
    {
      EntryAt(trace, adj, from, to, list, search.queue, index, 0, target);
      var u := search.queue[index].v;
      EdgesOf(all, u);
      if u.id == to.id { break; }
      var n := 0;
      while n < |u.edges|
        invariant fresh(search) && adj == Adjacency(all) && flag == (target != -1)
        invariant Underway(trace, adj, from, to, list, search.queue, index, n, target)
        invariant 0 <= n <= |u.edges| && index < |search.queue| && search.queue[index].v == u
      {
        ghost var queue, target0, list0 := search.queue, target, list;
        EntryAt(trace, adj, from, to, list, queue, index, n, target);
        EdgesOf(all, u);
        var e := u.edges[n];
        InAdjacency(all, to);
        assert e == adj[queue[index].v][n];
        EndsInside(adj, u, n);
        EdgesOf(all, e.vertex);
        var known := search.FindVertex(index, e.vertex);
        if known {
          if target != -1 && e.vertex.id == to.id { flag := true; }
        } else {
          search.queue := search.queue + [Entry(e.vertex, index, e.roadId)];
          if e.vertex.id == to.id { flag, target := true, |search.queue| - 1; }
        }
        n := n + 1;
        IsFollowed(queue, index, e, to, target0, search.queue, target);
        EdgeFollowed(trace, adj, from, to, list, queue, index, n - 1, target0, search.queue, target);
        if flag {
          var r := search.PrintCrossnode(target);
          CrossingIsMutation(search.queue, to);
          if r.Some? && r.value !in list { list := list + [r.value]; }
        } else {
          NoTargetNoCrossing(search.queue, to);
        }
        ghost var s' := EdgeDone(trace, adj, from, to, list0, queue, index, n - 1, target0, search.queue, target, list);
        trace := trace + [s'];
      }
      EntryLeft(trace, adj, from, to, list, search.queue, index, n, target);
      trace := trace + [Stage(search.queue, index + 1, 0, target)];
      index := index + 1;
    }
    UnderwayEnds(trace, adj, from, to, list, search.queue, index, target);
    CrossingsAreInside(trace, adj, from, to, list);
    EachOnce(trace, to, list);
  }

  lemma EachOnce(trace: seq<Stage>, to: Vertex, list: seq<Vertex>)
    requires Collected(trace, to, list)
    ensures Distinct(list)
  {
  }

  lemma IsFollowed(queue: seq<Entry>, index: nat, e: Edge, to: Vertex, target: int, queue': seq<Entry>, target': int)
    requires queue' == (if Holds(queue, e.vertex) then Reparented(queue, index, e.vertex) else queue + [Entry(e.vertex, index, e.roadId)])
    requires target' == if !Holds(queue, e.vertex) && e.vertex == to then |queue| else target
    ensures QueueFollowed(queue, index, e, to, target, queue', target')
  {
  }

  lemma InAdjacency(all: seq<Vertex>, u: Vertex)
    requires u in all
    ensures u in Adjacency(all)
  {
  }

  lemma EdgesOf(all: seq<Vertex>, u: Vertex)
    requires u in Adjacency(all)
    ensures u in all && Adjacency(all)[u] == u.edges
  {
  }

  lemma EndsInside(adj: Adj, u: Vertex, n: nat)
    requires Closed(adj) && u in adj && n < |adj[u]|
    ensures adj[u][n].vertex in adj
  {
  }

  lemma UnderwayStarts(trace: seq<Stage>, adj: Adj, from: Vertex, to: Vertex, list: seq<Vertex>, queue: seq<Entry>)
    requires from in adj && queue == [Entry(from, -1, 0)] && trace == [Stage(queue, 0, 0, -1)] && list == []
    ensures Underway(trace, adj, from, to, list, queue, 0, 0, -1)
  {
    RunStarts(adj, from, to);
  }

  lemma UnderwayEnds(trace: seq<Stage>, adj: Adj, from: Vertex, to: Vertex, list: seq<Vertex>,
                     queue: seq<Entry>, index: nat, target: int)
    requires Underway(trace, adj, from, to, list, queue, index, 0, target)
    requires index < |queue| ==> queue[index].v == to
    ensures Run(trace, adj, from, to) && Collected(trace, to, list) && |trace| > 0 && Ended(trace[|trace| - 1], to)
  {
  }

  // What a whole search establishes.
  lemma CrossingsAreInside(trace: seq<Stage>, adj: Adj, from: Vertex, to: Vertex, list: seq<Vertex>)
    requires Run(trace, adj, from, to) && Ended(trace[|trace| - 1], to) && Collected(trace, to, list)
    ensures var queue := trace[|trace| - 1].queue;
      |queue| <= |adj| && (Holds(queue, to) <==> exists w :: IsWalk(adj, w, from, to))
    ensures forall x :: x in list ==> x != from && x != to && exists w :: Inside(adj, w, from, x, to)
    ensures from == to ==> list == []
  {
    hide Searching, Crossing, Inside, IsWalk, Holds, StepAt, Distinct;
    TargetReached(trace[|trace| - 1], adj, from, to);
    forall x | x in list
      ensures x != from && x != to && exists w :: Inside(adj, w, from, x, to)
    {
      var k :| 0 <= k < |trace| && Crossing(trace[k].queue, to) == Some(x);
      var w := CrossingInside(trace[k], adj, from, to);
    }
    if from == to && list != [] {
      assert list[0] in list;
      var k :| 0 <= k < |trace| && Crossing(trace[k].queue, to) == Some(list[0]);
      HeadIsNoTarget(trace[k], adj, from);
      NoTargetNoCrossing(trace[k].queue, to);
    }
  }

  lemma HeadIsNoTarget(s: Stage, adj: Adj, from: Vertex)
    requires Searching(s, adj, from, from)
    ensures TargetOf(s.queue, from) == -1
  {
  }
}
