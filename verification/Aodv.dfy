/** aodv-routing-protocol.cc: the four functions that drive route searches, with their rate limit. */
module Aodv {
  import opened RingSearch
  import opened SearchRuns

  class RoutingProtocol {
    const c: Config
    const rreqRateLimit: nat
    var rreqCount: nat
    // the delay that the timer of the limit was last scheduled with
    var rreqRateLimitTimer: nat
    var table: map<Ip, Route>
    var retries: map<Ip, nat>
    var deferred: seq<Deferred>
    var sent: seq<(Ip, nat)>
    var dropped: seq<Ip>
    var served: seq<Ip>

    ghost function Now(): State
      reads this
    {
      State(rreqCount, rreqRateLimitTimer, table, retries, deferred, sent, dropped, served)
    }

    ghost predicate Valid()
      reads this
    {
      rreqCount <= rreqRateLimit
    }

    constructor (c: Config, rreqRateLimit: nat)
      ensures Valid() && this.c == c && this.rreqRateLimit == rreqRateLimit
      ensures Now() == State(0, SECOND, map[], map[], [], [], [], [])
    {
      this.c, this.rreqRateLimit := c, rreqRateLimit;
      rreqCount, rreqRateLimitTimer, table, retries, deferred, sent, dropped, served := 0, SECOND, map[], map[], [], [], [], [];
    }

    // SendRequest; left is how long the timer of the limit still runs.
    method SendRequest(dst: Ip, left: nat)
      requires Valid()
      modifies this
      ensures Valid() && Now() == old(Now()).Asking(c, rreqRateLimit, dst, left)
    {
      hide Wait;
      if rreqCount == rreqRateLimit {
        deferred := deferred + [Deferred(dst, left + 100)];
        return;
      }
      rreqCount := rreqCount + 1;
      var ttl := c.ttlStart;
      if dst in table {
        var rt := table[dst];
        if rt.flag != IN_SEARCH {
          var sum, diameter := (rt.hop + c.ttlIncrement) % UINT16, c.netDiameter % UINT16;
          ttl := if sum < diameter then sum else diameter;
        } else {
          ttl := (rt.hop + c.ttlIncrement) % UINT16;
          if ttl > c.ttlThreshold { ttl := c.netDiameter % UINT16; }
        }
        if ttl == c.netDiameter { rt := rt.(rreqCnt := rt.rreqCnt + 1); }
        rt := rt.(hop := ttl, flag := IN_SEARCH);
        table := table[dst := rt];
      } else {
        var newEntry := Route(IN_SEARCH, ttl, 0);
        if ttl == c.netDiameter { newEntry := newEntry.(rreqCnt := newEntry.rreqCnt + 1); }
        table := table[dst := newEntry];
      }
      assert table[dst] == Sought(Requested(c, old(table), dst));
      sent := sent + [(dst, ttl)];
      ScheduleRreqRetry(dst);
    }

    // ScheduleRreqRetry
    method ScheduleRreqRetry(dst: Ip)
      requires dst in table
      modifies this`retries
      ensures retries == old(retries)[dst := Wait(c, Search(table[dst].hop, table[dst].rreqCnt))]
    {
      var rt := table[dst];
      var retry;
      if rt.hop < c.netDiameter {
        retry := 2 * c.nodeTraversalTime * (rt.hop + c.timeoutBuffer);
      } else {
        retry := PowerTimes(rt.rreqCnt - 1, c.netTraversalTime);
      }
      retries := retries[dst := retry];
    }

    // RouteRequestTimerExpire
    method RouteRequestTimerExpire(dst: Ip, left: nat)
      requires Valid() && dst in retries
      modifies this
      ensures Valid() && Now() == old(Now()).Expired(c, rreqRateLimit, dst, left)
    {
      hide Wait, Requested;
      retries := retries - {dst};
      var toDst := if dst in table then table[dst] else NO_ROUTE;
      if dst in table && toDst.flag == VALID {
        served := served + [dst];
        return;
      }
      if toDst.rreqCnt == c.rreqRetries {
        table := table - {dst};
        dropped := dropped + [dst];
        return;
      }
      if toDst.flag == IN_SEARCH {
        SendRequest(dst, left);
      } else {
        table := table - {dst};
        dropped := dropped + [dst];
      }
    }

    // RreqRateLimitTimerExpire
    method RreqRateLimitTimerExpire()
      requires Valid()
      modifies this
      ensures Valid() && Now() == old(Now()).(count := 0, limitTimer := SECOND)
    {
      rreqCount := 0;
      rreqRateLimitTimer := SECOND;
    }

    // The simulator runs an event; what others learn of routes is up to the rest of the protocol.
    method Perform(e: Event)
      requires Valid() && Now().Enabled(e)
      modifies this
      ensures Valid() && Happens(c, rreqRateLimit, old(Now()), e, Now())
    {
      hide State.Asking, State.Expired;
      match e
      case Starts(dst, left) => SendRequest(dst, left);
      case Expires(dst, left) => RouteRequestTimerExpire(dst, left);
      case Fires(k, left) =>
        var dst := deferred[k].dst;
        deferred := Removed(deferred, k);
        SendRequest(dst, left);
      case Resets => RreqRateLimitTimerExpire();
      case Learns(dst, Some(r)) => table := table[dst := r];
      case Learns(dst, None) => table := table - {dst};
    }

    // What the simulator does with a schedule is a run; an event whose time never comes is skipped.
    method PerformAll(schedule: seq<Event>) returns (ghost states: seq<State>, ghost events: seq<Event>)
      requires Valid()
      modifies this
      ensures Valid() && Run(c, rreqRateLimit, states, events) && states[0] == old(Now()) && states[|events|] == Now()
    {
      hide Happens;
      states, events := [Now()], [];
      var i := 0;
      while i < |schedule|
        invariant 0 <= i <= |schedule| && Valid()
        invariant Run(c, rreqRateLimit, states, events) && states[0] == old(Now()) && states[|events|] == Now()
      {
        var e := schedule[i];
        if (e.Expires? ==> e.dst in retries) && (e.Fires? ==> e.k < |deferred|) {
          Perform(e);
          states, events := states + [Now()], events + [e];
        }
        i := i + 1;
      }
    }

    // With a limit of one request at least, an unanswered search does come to its end: the packets
    // are dropped after the number of requests specified.
    method SearchUnanswered(dst: Ip)
      requires Valid() && rreqRateLimit >= 1 && Fresh(Of(Now(), dst)) && c.Climbing() && NoHarmfulWrap(c)
      modifies this
      ensures Valid() && Searching(c, Of(old(Now()), dst), Of(Now(), dst), Requests(c))
      ensures Of(Now(), dst).drops == Of(old(Now()), dst).drops + 1
      ensures |Of(Now(), dst).ttls| == |Of(old(Now()), dst).ttls| + Requests(c)
    {
      ghost var v0 := Of(Now(), dst);
      hide Searching, Requests, NoHarmfulWrap, State.Asking, State.Expired, Waiting, Ttls, Drops;
      ResetUnseen(Now(), dst);
      if rreqCount == rreqRateLimit { RreqRateLimitTimerExpire(); }
      ghost var n := FirstStands(c, rreqRateLimit, Now(), dst, 0);
      SendRequest(dst, 0);
      while dst in retries
        invariant Valid() && Searching(c, v0, Of(Now(), dst), n) && Of(Now(), dst).waiting == 0
        decreases Requests(c) - n, dst in retries
      {
        ResetUnseen(Now(), dst);
        if rreqCount == rreqRateLimit { RreqRateLimitTimerExpire(); }
        n := ExpiryKeeps(c, rreqRateLimit, Now(), dst, 0, dst, v0, n);
        RouteRequestTimerExpire(dst, 0);
        WithinRequests(c, v0, Of(Now(), dst), n);
      }
      WithinRequests(c, v0, Of(Now(), dst), n);
    }
  }

  // std::pow (2, k) * t
  method PowerTimes(k: int, t: nat) returns (r: nat)
    ensures r == Times2(k, t)
  {
    r := t;
    var j := 0;
    while j < k
      invariant 0 <= j && (j <= k || (j == 0 && k < 0)) && r == Times2(j, t)
    {
      r := 2 * r;
      j := j + 1;
    }
  }
}
