/** Runs of the route searches of aodv-routing-protocol.cc: timers of any destination expire, the rate
    limit is reset, requests that were put off fire, and routes to others come and go, in any order. */
module SearchRuns {
  import opened Options
  import opened Powers
  import opened RingSearch

  type Ip = nat

  datatype Flag = VALID | INVALID | IN_SEARCH

  // What a search uses of a RoutingTableEntry; the hop field holds the TTL of the last request.
  datatype Route = Route(flag: Flag, hop: nat, rreqCnt: nat)

  // What LookupValidRoute leaves in an entry it does not find.
  const NO_ROUTE := Route(VALID, 0, 0)

  function Sought(s: Search): Route { Route(IN_SEARCH, s.ttl, s.fullCount) }

  // Using an entry that is not in search: its distance is the first TTL.
  function Resumed(c: Config, r: Route): Search {
    var sum := (r.hop + c.ttlIncrement) % UINT16;
    Counted(c, if sum < c.netDiameter % UINT16 then sum else c.netDiameter % UINT16, r.rreqCnt)
  }

  // The search after the next request.
  function Requested(c: Config, table: map<Ip, Route>, dst: Ip): Search {
    if dst !in table then First(c)
    else if table[dst].flag != IN_SEARCH then Resumed(c, table[dst])
    else Next(c, Search(table[dst].hop, table[dst].rreqCnt))
  }

  // Times are in microseconds: the limit is reset every second.
  const SECOND := 1000000

  // A request that was put off, and for how long.
  datatype Deferred = Deferred(dst: Ip, delay: nat)

  // left is how long the timer of the limit still runs.
  datatype Event =
    | Starts(dst: Ip, left: nat)
    | Expires(dst: Ip, left: nat)
    | Fires(k: nat, left: nat)
    | Resets
    | Learns(dst: Ip, route: Option<Route>)

  datatype State = State(
    count: nat, limitTimer: nat,
    table: map<Ip, Route>,
    retries: map<Ip, nat>,   // the retry timers that run, with their delays
    deferred: seq<Deferred>, // the requests put off that have not fired yet
    sent: seq<(Ip, nat)>,    // the requests sent: destination and TTL
    dropped: seq<Ip>,        // the destinations whose packets were dropped
    served: seq<Ip>)         // the destinations whose packets were sent on their routes
  {
    // SendRequest: put off when the limit is reached.
    function Asking(c: Config, limit: nat, dst: Ip, left: nat): State {
      if count == limit then this.(deferred := deferred + [Deferred(dst, left + 100)])
      else
        var s := Requested(c, table, dst);
        this.(count := count + 1, table := table[dst := Sought(s)], retries := retries[dst := Wait(c, s)], sent := sent + [(dst, s.ttl)])
    }

    // RouteRequestTimerExpire: the packets go out when an answer came; the next request while the
    // search goes on; else the packets are dropped.
    function Expired(c: Config, limit: nat, dst: Ip, left: nat): State {
      var stopped := this.(retries := retries - {dst});
      var r := if dst in table then table[dst] else NO_ROUTE;
      if dst in table && r.flag == VALID then stopped.(served := served + [dst])
      else if r.rreqCnt != c.rreqRetries && r.flag == IN_SEARCH then stopped.Asking(c, limit, dst, left)
      else stopped.(table := table - {dst}, dropped := dropped + [dst])
    }

    predicate Enabled(e: Event) {
      (e.Expires? ==> e.dst in retries) && (e.Fires? ==> e.k < |deferred|)
    }

    function After(c: Config, limit: nat, e: Event): State
      requires Enabled(e)
    {
      match e
      case Starts(dst, left) => Asking(c, limit, dst, left)
      case Expires(dst, left) => Expired(c, limit, dst, left)
      case Fires(k, left) => this.(deferred := Removed(deferred, k)).Asking(c, limit, deferred[k].dst, left)
      case Resets => this.(count := 0, limitTimer := SECOND)
      case Learns(dst, Some(r)) => this.(table := table[dst := r])
      case Learns(dst, None) => this.(table := table - {dst})
    }
  }

  function Removed(d: seq<Deferred>, k: nat): seq<Deferred>
    requires k < |d|
  {
    d[..k] + d[k + 1..]
  }

  // ---- what concerns one destination ----

  // How many requests for it are put off.
  ghost function Waiting(d: seq<Deferred>, dst: Ip): nat {
    if d == [] then 0 else Waiting(d[..|d| - 1], dst) + Once(d[|d| - 1].dst == dst)
  }

  function Once(b: bool): nat { if b then 1 else 0 }

  // The TTLs of the requests sent for it, in order.
  ghost function Ttls(sent: seq<(Ip, nat)>, dst: Ip): seq<nat> {
    if sent == [] then []
    else
      var last := sent[|sent| - 1];
      Ttls(sent[..|sent| - 1], dst) + if last.0 == dst then [last.1] else []
  }

  // How often its packets were dropped.
  ghost function Drops(dropped: seq<Ip>, dst: Ip): nat {
    if dropped == [] then 0 else Drops(dropped[..|dropped| - 1], dst) + Once(dropped[|dropped| - 1] == dst)
  }

  // The TTLs of the first n requests of a search as the ring search specifies them.
  ghost function Specified(c: Config, n: nat): seq<nat> {
    if n == 0 then []
    else Specified(c, n - 1) + match Request(c, n - 1) case Some(s) => [s.ttl] case None => []
  }

  lemma OneMoreWaiting(d: seq<Deferred>, e: Deferred, dst: Ip)
    ensures Waiting(d + [e], dst) == Waiting(d, dst) + Once(e.dst == dst)
  {
    assert (d + [e])[..|d|] == d;
  }

  lemma OneMoreSent(sent: seq<(Ip, nat)>, to: Ip, ttl: nat, dst: Ip)
    ensures Ttls(sent + [(to, ttl)], dst) == Ttls(sent, dst) + if to == dst then [ttl] else []
  {
    assert (sent + [(to, ttl)])[..|sent|] == sent;
  }

  lemma OneMoreDrop(dropped: seq<Ip>, d: Ip, dst: Ip)
    ensures Drops(dropped + [d], dst) == Drops(dropped, dst) + Once(d == dst)
  {
    assert (dropped + [d])[..|dropped|] == dropped;
  }

  lemma {:induction false} OneLessWaiting(d: seq<Deferred>, k: nat, dst: Ip)
    requires k < |d|
    ensures Waiting(d, dst) == Waiting(Removed(d, k), dst) + Once(d[k].dst == dst)
  {
    var n := |d| - 1;
    if k == n {
      assert Removed(d, k) == d[..n];
    } else {
      OneLessWaiting(d[..n], k, dst);
      assert Removed(d, k)[..n - 1] == Removed(d[..n], k);
    }
  }

  // What of a state concerns dst.
  datatype View = View(route: Option<Route>, running: bool, waiting: nat, ttls: seq<nat>, drops: nat)

  ghost function Of(s: State, dst: Ip): View {
    View(if dst in s.table then Some(s.table[dst]) else None, dst in s.retries, Waiting(s.deferred, dst), Ttls(s.sent, dst),
         Drops(s.dropped, dst))
  }

  // A request for dst, or for another.
  lemma AskingSeen(c: Config, limit: nat, s: State, to: Ip, left: nat, dst: Ip)
    ensures var v, v', q := Of(s, dst), Of(s.Asking(c, limit, to, left), dst), Requested(c, s.table, to);
      v' == if to != dst then v
            else if s.count == limit then v.(waiting := v.waiting + 1)
            else v.(route := Some(Sought(q)), running := true, ttls := v.ttls + [q.ttl])
  {
    hide Requested, Wait, Waiting, Ttls, Drops;
    OneMoreWaiting(s.deferred, Deferred(to, left + 100), dst);
    OneMoreSent(s.sent, to, Requested(c, s.table, to).ttl, dst);
  }

  // ---- an unanswered search ----

  // Where the search for dst stands after n requests, with exactly one thing under way: the first
  // request put off, the timer of the last one, the next one put off; or nothing, when the last one
  // was the last to be sent and the packets were dropped.
  ghost predicate Stands(c: Config, v: View, n: nat, drops: nat) {
    if n == 0 then v.route == None && !v.running && v.waiting == 1 && v.drops == drops
    else
      Request(c, n - 1).Some? &&
      var last := Request(c, n - 1).value;
      if v.route.Some? then
        v.route.value == Sought(last) && v.drops == drops &&
        if v.running then v.waiting == 0 else v.waiting == 1 && !GivesUp(c, last)
      else GivesUp(c, last) && !v.running && v.waiting == 0 && v.drops == drops + 1
  }

  // From v0 on, n requests for dst were sent: the first n of those specified.
  ghost predicate Searching(c: Config, v0: View, v: View, n: nat) {
    v.ttls == v0.ttls + Specified(c, n) && Stands(c, v, n, v0.drops)
  }

  // Nothing is known of dst and nothing is under way for it.
  ghost predicate Fresh(v: View) { v.route == None && !v.running && v.waiting == 0 }

  // Nobody answers for dst, and no second search for it is started.
  predicate Spares(e: Event, dst: Ip) {
    e.Starts? || e.Learns? ==> e.dst != dst
  }

  lemma NextIsSpecified(c: Config, n: nat)
    requires Request(c, n).Some?
    ensures Specified(c, n + 1) == Specified(c, n) + [Request(c, n).value.ttl]
  {
    hide Request;
  }

  // The next request for dst is sent or put off.
  lemma AskingKeeps(c: Config, limit: nat, s: State, dst: Ip, left: nat, v0: View, n: nat)
    requires Of(s, dst).ttls == v0.ttls + Specified(c, n) && Of(s, dst).drops == v0.drops
    requires !Of(s, dst).running && Of(s, dst).waiting == 0
    requires Request(c, n).Some? && if n == 0 then dst !in s.table else dst in s.table && s.table[dst] == Sought(Request(c, n - 1).value)
    ensures var v := Of(s.Asking(c, limit, dst, left), dst);
      && Searching(c, v0, v, if s.count == limit then n else n + 1)
      && (s.count != limit ==> v.running && v.waiting == 0)
  {
    AskingSeen(c, limit, s, dst, left, dst);
    NextIsSpecified(c, n);
    hide Of, Specified, First, Next;
  }

  // The timer of a destination expires: what that does for dst.
  lemma ExpiryKeeps(c: Config, limit: nat, s: State, to: Ip, left: nat, dst: Ip, v0: View, n: nat) returns (n': nat)
    requires Searching(c, v0, Of(s, dst), n) && to in s.retries
    ensures Searching(c, v0, Of(s.Expired(c, limit, to, left), dst), n') && n <= n' <= n + 1
    ensures to == dst && s.count != limit ==>
      var v := Of(s.Expired(c, limit, to, left), dst); v.waiting == 0 && (v.running <==> n' == n + 1)
  {
    var stopped := s.(retries := s.retries - {to});
    OneMoreDrop(s.dropped, to, dst);
    n' := n;
    hide Waiting, Ttls, Drops, Request, Specified, Next, First, State.Asking;
    if to != dst {
      AskingSeen(c, limit, stopped, to, left, dst);
    } else if !GivesUp(c, Request(c, n - 1).value) {
      Goes(c, n - 1);
      AskingKeeps(c, limit, stopped, dst, left, v0, n);
      n' := if s.count == limit then n else n + 1;
    }
  }

  // A request that was put off fires.
  lemma FiringKeeps(c: Config, limit: nat, s: State, k: nat, left: nat, dst: Ip, v0: View, n: nat) returns (n': nat)
    requires Searching(c, v0, Of(s, dst), n) && k < |s.deferred|
    ensures Searching(c, v0, Of(s.After(c, limit, Fires(k, left)), dst), n') && n <= n' <= n + 1
  {
    var s', to := s.(deferred := Removed(s.deferred, k)), s.deferred[k].dst;
    OneLessWaiting(s.deferred, k, dst);
    n' := n;
    if n == 0 { assert Request(c, 0) == Some(First(c)); }
    hide Waiting, Ttls, Drops, Request, Specified, Next, First, State.Asking;
    if to != dst {
      AskingSeen(c, limit, s', to, left, dst);
    } else {
      if n > 0 { Goes(c, n - 1); }
      AskingKeeps(c, limit, s', dst, left, v0, n);
      n' := if s.count == limit then n else n + 1;
    }
  }

  // Whatever happens, the search stands where the requests specified lead to.
  lemma StepKeeps(c: Config, limit: nat, s: State, e: Event, dst: Ip, v0: View, n: nat) returns (n': nat)
    requires Searching(c, v0, Of(s, dst), n) && s.Enabled(e) && Spares(e, dst)
    ensures Searching(c, v0, Of(s.After(c, limit, e), dst), n') && n <= n' <= n + 1
  {
    n' := n;
    match e
    case Starts(to, left) =>
      hide Searching, Of;
      AskingSeen(c, limit, s, to, left, dst);
    case Expires(to, left) =>
      hide Searching, Of, State.Expired;
      n' := ExpiryKeeps(c, limit, s, to, left, dst, v0, n);
    case Fires(k, left) =>
      hide Searching, Of;
      n' := FiringKeeps(c, limit, s, k, left, dst, v0, n);
    case _ =>
      hide Searching;
      assert Of(s.After(c, limit, e), dst) == Of(s, dst);
  }

  // A run: the states before and after its events.
  ghost predicate Run(c: Config, limit: nat, states: seq<State>, events: seq<Event>) {
    && |states| == |events| + 1
    && forall k :: 0 <= k < |events| ==> Happens(c, limit, states[k], events[k], states[k + 1])
  }

  ghost predicate Happens(c: Config, limit: nat, s: State, e: Event, s': State) {
    s.Enabled(e) && s' == s.After(c, limit, e)
  }

  // A search for dst starts the run and is not answered.
  ghost predicate Unanswered(states: seq<State>, events: seq<Event>, dst: Ip)
    requires |states| > 0
  {
    && Fresh(Of(states[0], dst)) && |events| > 0 && events[0].Starts? && events[0].dst == dst
    && forall k :: 1 <= k < |events| ==> Spares(events[k], dst)
  }

  lemma FirstStands(c: Config, limit: nat, s: State, dst: Ip, left: nat) returns (n: nat)
    requires Fresh(Of(s, dst))
    ensures Searching(c, Of(s, dst), Of(s.Asking(c, limit, dst, left), dst), n)
    ensures s.count != limit ==> n == 1 && Of(s.Asking(c, limit, dst, left), dst).waiting == 0
  {
    AskingSeen(c, limit, s, dst, left, dst);
    NextIsSpecified(c, 0);
    hide Waiting, Ttls, Drops, Specified, Request;
    n := if s.count == limit then 0 else 1;
    assert Specified(c, 0) == [] && Request(c, 0) == Some(First(c));
  }

  lemma {:induction false} RunKeeps(c: Config, limit: nat, states: seq<State>, events: seq<Event>, dst: Ip, k: nat) returns (n: nat)
    requires Run(c, limit, states, events) && Unanswered(states, events, dst) && 1 <= k < |states|
    ensures Searching(c, Of(states[0], dst), Of(states[k], dst), n)
    decreases k
  {
    assert Happens(c, limit, states[k - 1], events[k - 1], states[k]);
    hide Searching, Happens;
    if k == 1 {
      n := FirstStands(c, limit, states[0], dst, events[0].left);
    } else {
      n := RunKeeps(c, limit, states, events, dst, k - 1);
      n := StepKeeps(c, limit, states[k - 1], events[k - 1], dst, Of(states[0], dst), n);
    }
  }

  lemma {:induction false} SomeBefore(c: Config, n: nat, i: nat)
    requires i <= n && Request(c, n).Some?
    ensures Request(c, i).Some?
  {
    if i < n { SomeBefore(c, n - 1, i); }
  }

  lemma {:induction false} SpecifiedIs(c: Config, n: nat)
    requires n == 0 || Request(c, n - 1).Some?
    ensures |Specified(c, n)| == n
    ensures forall i: nat :: i < n ==> Request(c, i).Some? && Specified(c, n)[i] == Request(c, i).value.ttl
  {
    if n > 0 {
      if n > 1 { SomeBefore(c, n - 1, n - 2); }
      SpecifiedIs(c, n - 1);
    }
  }

  // In every run, whenever the limit holds requests up and whoever else uses it up, the requests
  // sent for dst are the first of those specified, in order; while its packets wait, exactly one
  // timer runs or one request is put off for it; and when they are dropped, which happens once at
  // most, the last request specified has been sent.
  lemma UnansweredSearch(c: Config, limit: nat, states: seq<State>, events: seq<Event>, dst: Ip)
    requires Run(c, limit, states, events) && Unanswered(states, events, dst)
    ensures var v0, v := Of(states[0], dst), Of(states[|events|], dst);
      && v0.ttls <= v.ttls
      && var n := |v.ttls| - |v0.ttls|;
         && (forall i: nat :: i < n ==> Request(c, i).Some? && v.ttls[|v0.ttls| + i] == Request(c, i).value.ttl)
         && (v.drops == v0.drops ==> v.waiting + Once(v.running) == 1)
         && (v.drops != v0.drops ==> v.drops == v0.drops + 1 && v.waiting == 0 && !v.running && Request(c, n).None?)
  {
    var n := RunKeeps(c, limit, states, events, dst, |events|);
    SpecifiedIs(c, n);
    if n > 0 && GivesUp(c, Request(c, n - 1).value) { Stops(c, n - 1); }
    hide Of, Request, Specified, Unanswered, Run;
  }

  // So without a harmful wrap it is never more than the number of requests specified, and exactly
  // that many when the packets are dropped.
  lemma RequestsInRun(c: Config, limit: nat, states: seq<State>, events: seq<Event>, dst: Ip)
    requires Run(c, limit, states, events) && Unanswered(states, events, dst) && c.Climbing() && NoHarmfulWrap(c)
    ensures var v0, v := Of(states[0], dst), Of(states[|events|], dst);
      |v.ttls| <= |v0.ttls| + Requests(c) && (v.drops != v0.drops ==> |v.ttls| == |v0.ttls| + Requests(c))
  {
    UnansweredSearch(c, limit, states, events, dst);
    NoWrapIsAsSpecified(c);
    hide Of, Request, Requests, Unanswered, Run, NoHarmfulWrap, Rises;
    var v0, v := Of(states[0], dst), Of(states[|events|], dst);
    var n: nat := |v.ttls| - |v0.ttls|;
    assert n < Requests(c) <==> Request(c, n).Some?;
  }

  // How far the search is while its timer runs, and when nothing is under way any more.
  lemma WithinRequests(c: Config, v0: View, v: View, n: nat)
    requires Searching(c, v0, v, n) && c.Climbing() && NoHarmfulWrap(c) && v.waiting == 0
    ensures n <= Requests(c) && |v.ttls| == |v0.ttls| + n
    ensures !v.running ==> n == Requests(c) && v.drops == v0.drops + 1
  {
    NoWrapIsAsSpecified(c);
    SpecifiedIs(c, n);
    if !v.running { Stops(c, n - 1); }
    hide Request, Requests, NoHarmfulWrap, Rises, Specified;
    assert n - 1 < Requests(c) <==> Request(c, n - 1).Some?;
    assert n < Requests(c) <==> Request(c, n).Some?;
  }

  lemma ResetUnseen(s: State, dst: Ip)
    ensures Of(s.(count := 0, limitTimer := SECOND), dst) == Of(s, dst)
  {
  }

  // Between two resets no more requests are sent than the limit allows.
  lemma {:induction false} LimitHolds(c: Config, limit: nat, states: seq<State>, events: seq<Event>, k: nat)
    requires Run(c, limit, states, events) && states[0].count <= limit && k < |states|
    requires forall j :: 0 <= j < k ==> !events[j].Resets?
    ensures |states[k].sent| - |states[0].sent| == states[k].count - states[0].count && states[k].count <= limit
  {
    if k > 0 {
      LimitHolds(c, limit, states, events, k - 1);
      assert Happens(c, limit, states[k - 1], events[k - 1], states[k]);
    }
  }

  // ---- one event, in full ----

  // A request within the limit: its TTL, the entry, the timer, and nothing else.
  lemma RequestSent(c: Config, limit: nat, s: State, dst: Ip, left: nat)
    requires s.count != limit
    ensures var s' := s.Asking(c, limit, dst, left);
      && s'.count == s.count + 1 && |s'.sent| == |s.sent| + 1 && s.sent <= s'.sent && s'.sent[|s.sent|].0 == dst
      && dst in s'.table && s'.table.Keys == s.table.Keys + {dst} && (forall d :: d in s.table && d != dst ==> s'.table[d] == s.table[d])
      && dst in s'.retries && s'.retries.Keys == s.retries.Keys + {dst} && (forall d :: d in s.retries && d != dst ==> s'.retries[d] == s.retries[d])
      && s'.deferred == s.deferred && s'.dropped == s.dropped && s'.served == s.served && s'.limitTimer == s.limitTimer
      && var ttl, before := s'.sent[|s.sent|].1, if dst in s.table then s.table[dst].rreqCnt else 0;
         s'.table[dst] == Route(IN_SEARCH, ttl, if ttl == c.netDiameter then before + 1 else before)
  {
  }

  // A new search starts with the first TTL, one that goes on with the next ring or the diameter; an
  // entry that is not in search gives its distance, and the smaller of that and the diameter counts.
  lemma RequestTtl(c: Config, limit: nat, s: State, dst: Ip, left: nat)
    requires s.count != limit && c.netDiameter < 0x1_0000
    ensures var ttl := s.Asking(c, limit, dst, left).sent[|s.sent|].1;
      if dst !in s.table then ttl == c.ttlStart
      else
        var sum := (s.table[dst].hop + c.ttlIncrement) % 0x1_0000;
        if s.table[dst].flag == IN_SEARCH then ttl == if sum <= c.ttlThreshold then sum else c.netDiameter
        else ttl <= sum && ttl <= c.netDiameter && (ttl == sum || ttl == c.netDiameter)
  {
  }

  // The timer of a request below the diameter runs for two traversals of its ring and of the buffer,
  // that of the full diameter doubles with each retry.
  lemma RequestWait(c: Config, limit: nat, s: State, dst: Ip, left: nat)
    requires s.count != limit
    ensures var s' := s.Asking(c, limit, dst, left); var r := s'.table[dst];
      && (r.hop < c.netDiameter ==> s'.retries[dst] == 2 * c.nodeTraversalTime * (r.hop + c.timeoutBuffer))
      && (r.hop >= c.netDiameter && r.rreqCnt >= 1 ==> s'.retries[dst] == Power(2, r.rreqCnt - 1) * c.netTraversalTime)
  {
    var r := s.Asking(c, limit, dst, left).table[dst];
    if r.rreqCnt >= 1 { DoubledIs(r.rreqCnt - 1, c.netTraversalTime); }
  }

  // At the limit it is put off until just after the limit is reset.
  lemma RequestPutOff(c: Config, limit: nat, s: State, dst: Ip, left: nat)
    requires s.count == limit
    ensures s.Asking(c, limit, dst, left) == s.(deferred := s.deferred + [Deferred(dst, left + 100)])
  {
  }

  // When the limit is reset, the count starts again for a second and nothing else changes; then a
  // request that was put off goes out, and the others stay put off in their order.
  lemma ResetMakesRoom(c: Config, limit: nat, s: State, k: nat, left: nat)
    requires limit >= 1 && k < |s.deferred|
    ensures var s1 := s.After(c, limit, Resets);
      && s1 == s.(count := 0, limitTimer := 1000000)
      && var s2 := s1.After(c, limit, Fires(k, left));
         && s2.sent[..|s.sent|] == s.sent && |s2.sent| == |s.sent| + 1 && s2.sent[|s.sent|].0 == s.deferred[k].dst
         && s2.deferred == s.deferred[..k] + s.deferred[k + 1..] && s2.count == 1
         && s.deferred[k].dst in s2.retries && s2.dropped == s.dropped && s2.served == s.served
  {
  }

  // The timer fires with a valid route: the packets go out on it, and all else stays but the timer.
  lemma AnsweredExpiry(c: Config, limit: nat, s: State, dst: Ip, left: nat)
    requires dst in s.retries && dst in s.table && s.table[dst].flag == VALID
    ensures var s' := s.After(c, limit, Expires(dst, left));
      && s'.retries == s.retries - {dst} && s'.served == s.served + [dst]
      && s'.table == s.table && s'.count == s.count && s'.limitTimer == s.limitTimer
      && s'.sent == s.sent && s'.deferred == s.deferred && s'.dropped == s.dropped
  {
  }

  // It fires without one: the search goes on while it has not asked the whole network often enough;
  // else, and when the route has gone down meanwhile, the packets are dropped.
  lemma UnansweredExpiry(c: Config, limit: nat, s: State, dst: Ip, left: nat)
    requires dst in s.retries && !(dst in s.table && s.table[dst].flag == VALID)
    ensures var s' := s.After(c, limit, Expires(dst, left));
      && s'.served == s.served
      && if dst in s.table && s.table[dst].flag == IN_SEARCH && s.table[dst].rreqCnt != c.rreqRetries then
           && s'.dropped == s.dropped && dst in s'.table
           && (if s.count == limit then s'.deferred == s.deferred + [Deferred(dst, left + 100)] && dst !in s'.retries
               else |s'.sent| == |s.sent| + 1 && s'.sent[|s.sent|].0 == dst && dst in s'.retries)
         else
           && s'.dropped == s.dropped + [dst] && dst !in s'.table && dst !in s'.retries
           && s'.sent == s.sent && s'.deferred == s.deferred && s'.count == s.count
  {
  }

  // ---- an answered search ----

  // The event leaves the route to dst alone: nothing is learned of it, and no request for it is made.
  predicate Leaves(s: State, e: Event, dst: Ip)
    requires s.Enabled(e)
  {
    && (e.Starts? || e.Learns? ==> e.dst != dst)
    && (e.Fires? ==> s.deferred[e.k].dst != dst)
  }

  ghost predicate Answered(c: Config, limit: nat, states: seq<State>, events: seq<Event>, dst: Ip, r: Route) {
    && Run(c, limit, states, events) && |events| > 0 && events[0] == Learns(dst, Some(r)) && r.flag == VALID
    && forall k :: 1 <= k < |events| ==> states[k].Enabled(events[k]) && Leaves(states[k], events[k], dst)
  }

  // From the answer on, as long as nothing touches the route: it stays, nothing is sent for dst and
  // nothing dropped, whenever timers expire; the first to expire for dst is the last, and then its
  // packets have gone out.
  lemma {:induction false} AnsweredSearch(c: Config, limit: nat, states: seq<State>, events: seq<Event>, dst: Ip, r: Route, k: nat)
    requires Answered(c, limit, states, events, dst, r) && 1 <= k < |states|
    ensures var v0, v := Of(states[0], dst), Of(states[k], dst);
      && v.route == Some(r) && v.ttls == v0.ttls && v.drops == v0.drops && v.waiting == v0.waiting
      && (v.running <==> v0.running && forall j :: 1 <= j < k ==> !(events[j].Expires? && events[j].dst == dst))
      && Drops(states[k].served, dst) == Drops(states[0].served, dst) + Once(v0.running && !v.running)
    decreases k
  {
    assert Happens(c, limit, states[k - 1], events[k - 1], states[k]);
    if k > 1 {
      AnsweredSearch(c, limit, states, events, dst, r, k - 1);
      hide Answered, Run, Happens, Of, Drops;
      AnsweredStep(c, limit, states[k - 1], events[k - 1], dst, r);
    }
  }

  lemma AnsweredStep(c: Config, limit: nat, s: State, e: Event, dst: Ip, r: Route)
    requires s.Enabled(e) && Leaves(s, e, dst) && Of(s, dst).route == Some(r) && r.flag == VALID
    ensures var v, s' := Of(s, dst), s.After(c, limit, e); var ends := e.Expires? && e.dst == dst;
      && Of(s', dst) == v.(running := v.running && !ends)
      && Drops(s'.served, dst) == Drops(s.served, dst) + Once(ends)
  {
    match e
    case Starts(to, left) =>
      hide Of, State.Asking, Drops;
      AskedOther(c, limit, s, to, left, dst);
    case Expires(to, left) =>
      hide Of, State.Expired, Drops;
      AnsweredTimer(c, limit, s, to, left, dst, r);
    case Fires(k, left) =>
      hide Of, State.Asking, Drops;
      FiredOther(s, k, dst);
      AskedOther(c, limit, s.(deferred := Removed(s.deferred, k)), s.deferred[k].dst, left, dst);
    case _ =>
      hide Waiting, Ttls, Drops;
  }

  lemma FiredOther(s: State, k: nat, dst: Ip)
    requires k < |s.deferred| && s.deferred[k].dst != dst
    ensures Of(s.(deferred := Removed(s.deferred, k)), dst) == Of(s, dst)
  {
    OneLessWaiting(s.deferred, k, dst);
    hide Waiting, Removed;
  }

  lemma AnsweredTimer(c: Config, limit: nat, s: State, to: Ip, left: nat, dst: Ip, r: Route)
    requires to in s.retries && Of(s, dst).route == Some(r) && r.flag == VALID
    ensures var v, s' := Of(s, dst), s.Expired(c, limit, to, left);
      && Of(s', dst) == v.(running := v.running && to != dst)
      && Drops(s'.served, dst) == Drops(s.served, dst) + Once(to == dst)
  {
    var stopped := s.(retries := s.retries - {to});
    OneMoreDrop(s.dropped, to, dst);
    OneMoreDrop(s.served, to, dst);
    hide State.Asking, Waiting, Ttls, Drops;
    assert Of(stopped, dst) == Of(s, dst).(running := Of(s, dst).running && to != dst);
    if to != dst { AskedOther(c, limit, stopped, to, left, dst); }
  }

  lemma AskedOther(c: Config, limit: nat, s: State, to: Ip, left: nat, dst: Ip)
    requires to != dst
    ensures Of(s.Asking(c, limit, to, left), dst) == Of(s, dst) && s.Asking(c, limit, to, left).served == s.served
  {
    AskingSeen(c, limit, s, to, left, dst);
    hide Of;
  }

  // A request for dst that was put off before the answer came takes the route away again: it is sent
  // all the same and the entry is back in search.
  lemma LateRequestExample(c: Config, limit: nat, s: State, k: nat, left: nat)
    requires k < |s.deferred| && s.count != limit
    requires var dst := s.deferred[k].dst; dst in s.table && s.table[dst].flag == VALID
    ensures var dst, s' := s.deferred[k].dst, s.After(c, limit, Fires(k, left));
      && dst in s'.table && s'.table[dst].flag == IN_SEARCH && |s'.sent| == |s.sent| + 1 && s'.sent[|s.sent|].0 == dst
  {
  }
}
