/** The expanding ring search of aodv-routing-protocol.cc (sections 6.3 and 6.4 of RFC 3561) for one
    destination that never answers: which requests are sent, and how long each is waited for. */
module RingSearch {
  import opened Options
  import opened Powers

  const UINT16 := 0x1_0000

  // TtlStart, TtlIncrement, TtlThreshold, TimeoutBuffer are uint16_t, NetDiameter and RreqRetries uint32_t.
  datatype Config = Config(ttlStart: nat, ttlIncrement: nat, ttlThreshold: nat, timeoutBuffer: nat, netDiameter: nat,
                           rreqRetries: nat, nodeTraversalTime: nat, netTraversalTime: nat)
  {
    ghost predicate Typed() {
      && ttlStart < UINT16 && ttlIncrement < UINT16 && ttlThreshold < UINT16 && timeoutBuffer < UINT16
      && netDiameter < 0x1_0000_0000 && rreqRetries < 0x1_0000_0000
    }

    // A search that climbs to the threshold and then asks the whole network.
    ghost predicate Climbing() {
      Typed() && ttlStart <= ttlThreshold < netDiameter && ttlIncrement >= 1 && rreqRetries >= 1
    }
  }

  // The entry of a destination in search: the TTL of the last request, and how many were sent with
  // the full diameter.
  datatype Search = Search(ttl: nat, fullCount: nat)

  function Counted(c: Config, ttl: nat, count: nat): Search {
    Search(ttl, if ttl == c.netDiameter then count + 1 else count)
  }

  // The first request for a destination without an entry.
  function First(c: Config): Search { Counted(c, c.ttlStart, 0) }

  // The next one: the sum and the diameter are stored in a uint16_t.
  function NextTtl(c: Config, ttl: nat): nat {
    var sum := (ttl + c.ttlIncrement) % UINT16;
    if sum > c.ttlThreshold then c.netDiameter % UINT16 else sum
  }

  function Next(c: Config, s: Search): Search { Counted(c, NextTtl(c, s.ttl), s.fullCount) }

  // The search gives up when the full diameter was tried often enough.
  predicate GivesUp(c: Config, s: Search) { s.fullCount == c.rreqRetries }

  // How long request s is waited for.
  function Wait(c: Config, s: Search): nat {
    if s.ttl < c.netDiameter then 2 * c.nodeTraversalTime * (s.ttl + c.timeoutBuffer)
    else Times2(s.fullCount - 1, c.netTraversalTime)
  }

  // t doubled so many times
  function Times2(k: int, t: nat): nat
    decreases k
  {
    if k <= 0 then t else 2 * Times2(k - 1, t)
  }

  // Request i of the search, when it is sent at all.
  ghost function Request(c: Config, i: nat): Option<Search> {
    if i == 0 then Some(First(c))
    else
      match Request(c, i - 1)
      case None => None
      case Some(s) => if GivesUp(c, s) then None else Some(Next(c, s))
  }

  // The TTL of ring i.
  ghost function Ring(c: Config, i: nat): nat {
    if i == 0 then c.ttlStart else Ring(c, i - 1) + c.ttlIncrement
  }

  // How many requests it takes to reach the threshold, and how many there are in all.
  ghost function Rings(c: Config): nat
    requires c.Climbing()
  {
    (c.ttlThreshold - c.ttlStart) / c.ttlIncrement + 1
  }

  ghost function Requests(c: Config): nat
    requires c.Climbing()
  {
    Rings(c) + c.rreqRetries
  }

  // As specified: exactly so many requests, with TTLs that never decrease.
  ghost predicate AsSpecified(c: Config)
    requires c.Climbing()
  {
    && (forall i: nat :: i < Requests(c) <==> Request(c, i).Some?)
    && (forall i: nat {:trigger Rises(c, i)} :: i + 1 < Requests(c) ==> Rises(c, i))
  }

  ghost predicate Rises(c: Config, i: nat) {
    Request(c, i).Some? && Request(c, i + 1).Some? && Request(c, i).value.ttl <= Request(c, i + 1).value.ttl
  }

  // No sum and no diameter is cut off in a way that matters: the diameter fits, the last ring grows
  // without wrapping, and from the diameter on every sum is still above the threshold.
  ghost predicate NoHarmfulWrap(c: Config)
    requires c.Climbing()
  {
    && c.netDiameter < UINT16
    && Ring(c, Rings(c)) < UINT16
    && (c.rreqRetries == 1 || (c.netDiameter + c.ttlIncrement) % UINT16 > c.ttlThreshold)
  }

  // ---- the climb ----

  lemma {:induction false} RingIs(c: Config, i: nat)
    ensures Ring(c, i) == c.ttlStart + i * c.ttlIncrement
  {
    if i > 0 {
      RingIs(c, i - 1);
      OneMoreTime(i, c.ttlIncrement);
    }
  }

  lemma OneMoreTime(i: int, n: int)
    ensures (i - 1) * n + n == i * n
  {
  }

  lemma RingBounds(c: Config)
    requires c.Climbing()
    ensures Rings(c) >= 1 && Ring(c, Rings(c) - 1) <= c.ttlThreshold < Ring(c, Rings(c))
  {
    hide Ring;
    RingIs(c, Rings(c) - 1);
    RingIs(c, Rings(c));
    Division(c.ttlThreshold - c.ttlStart, c.ttlIncrement);
  }

  lemma Division(d: nat, n: nat)
    requires n >= 1
    ensures d / n * n <= d < (d / n + 1) * n
  {
    assert (d / n + 1) * n == d / n * n + n;
  }

  lemma {:induction false} RingsGrow(c: Config, i: nat, j: nat)
    requires i <= j
    ensures Ring(c, i) <= Ring(c, j)
    decreases j
  {
    if i < j { RingsGrow(c, i, j - 1); }
  }

  lemma {:induction false} Climb(c: Config, i: nat)
    requires c.Climbing() && i < Rings(c)
    ensures Ring(c, i) <= c.ttlThreshold && Request(c, i) == Some(Search(Ring(c, i), 0))
  {
    hide Rings;
    RingBounds(c);
    RingsGrow(c, i, Rings(c) - 1);
    if i > 0 { Climb(c, i - 1); }
  }

  // Behind the threshold: the full diameter, once for every retry.
  lemma {:induction false} FullDiameter(c: Config, k: nat)
    requires c.Climbing() && NoHarmfulWrap(c) && 1 <= k <= c.rreqRetries
    ensures Request(c, Rings(c) - 1 + k) == Some(Search(c.netDiameter, k))
    decreases k
  {
    var i := Rings(c) - 1 + k;
    RingBounds(c);
    hide Rings, Request, NextTtl;
    if k == 1 {
      Climb(c, i - 1);
      AboveThreshold(c, Ring(c, i - 1));
    } else {
      FullDiameter(c, k - 1);
      StaysFull(c);
    }
    Goes(c, i - 1);
  }

  lemma StaysFull(c: Config)
    requires c.Climbing() && NoHarmfulWrap(c) && c.rreqRetries >= 2
    ensures NextTtl(c, c.netDiameter) == c.netDiameter
  {
    hide Rings, Ring;
  }

  lemma Goes(c: Config, i: nat)
    requires Request(c, i).Some? && !GivesUp(c, Request(c, i).value)
    ensures Request(c, i + 1) == Some(Next(c, Request(c, i).value))
  {
  }

  lemma {:induction false} NothingAfter(c: Config, i: nat, j: nat)
    requires i <= j && Request(c, i).None?
    ensures Request(c, j).None?
    decreases j
  {
    if i < j { NothingAfter(c, i, j - 1); }
  }

  // The search sends exactly as many requests as specified, with TTLs that never decrease.
  lemma NoWrapIsAsSpecified(c: Config)
    requires c.Climbing() && NoHarmfulWrap(c)
    ensures AsSpecified(c)
  {
    hide Rings, Next, First, Request, NoHarmfulWrap;
    forall i: nat
      ensures i < Requests(c) <==> Request(c, i).Some?
    {
      if i < Rings(c) {
        Climb(c, i);
      } else if i < Requests(c) {
        FullDiameter(c, i + 1 - Rings(c));
      } else {
        FullDiameter(c, c.rreqRetries);
        Stops(c, Requests(c) - 1);
        NothingAfter(c, Requests(c), i);
      }
    }
    forall i: nat | i + 1 < Requests(c)
      ensures Rises(c, i)
    {
      if i + 1 < Rings(c) {
        RingsGrow(c, i, i + 1);
        Climb(c, i);
        Climb(c, i + 1);
      } else {
        FullDiameter(c, i + 2 - Rings(c));
        if i < Rings(c) {
          Climb(c, i);
        } else {
          FullDiameter(c, i + 1 - Rings(c));
        }
      }
    }
  }

  lemma Stops(c: Config, i: nat)
    requires Request(c, i).Some? && GivesUp(c, Request(c, i).value)
    ensures Request(c, i + 1).None?
  {
  }

  // ---- the wraps that do harm ----

  // A diameter that does not fit is never counted: the search never ends.
  lemma {:induction false} WideDiameterNeverStops(c: Config, i: nat)
    requires c.Climbing() && c.netDiameter >= UINT16
    ensures Request(c, i).Some? && Request(c, i).value.fullCount == 0 && Request(c, i).value.ttl < UINT16
  {
    if i > 0 { WideDiameterNeverStops(c, i - 1); }
  }

  lemma OnlyAsSpecifiedWithoutWrap(c: Config)
    requires c.Climbing() && AsSpecified(c)
    ensures NoHarmfulWrap(c)
  {
    hide Rings, Request, NextTtl, AsSpecified;
    var n := Rings(c);
    RingBounds(c);
    if c.netDiameter >= UINT16 {
      WideDiameterNeverStops(c, Requests(c));
      EndsThere(c);
      assert false;
    }
    Climb(c, n - 1);
    Goes(c, n - 1);
    RisesAt(c, n - 1);
    RingWraps(c, n);
    if c.rreqRetries >= 2 {
      assert Request(c, n) == Some(Search(c.netDiameter, 1)) by { AboveThreshold(c, Ring(c, n - 1)); }
      Goes(c, n);
      RisesAt(c, n);
      BelowDiameter(c);
    }
  }

  lemma EndsThere(c: Config)
    requires c.Climbing() && AsSpecified(c)
    ensures Request(c, Requests(c)).None?
  {
  }

  lemma RisesAt(c: Config, i: nat)
    requires c.Climbing() && AsSpecified(c) && i + 1 < Requests(c)
    ensures Request(c, i).Some? && Request(c, i + 1).Some? && Request(c, i).value.ttl <= Request(c, i + 1).value.ttl
  {
    assert Rises(c, i);
  }

  // A last ring that wraps comes out lower than the one before.
  lemma RingWraps(c: Config, n: nat)
    requires c.Climbing() && n >= 1 && Ring(c, n - 1) <= c.ttlThreshold
    requires NextTtl(c, Ring(c, n - 1)) >= Ring(c, n - 1)
    ensures Ring(c, n) < UINT16
  {
  }

  lemma AboveThreshold(c: Config, ttl: nat)
    requires c.Climbing() && c.netDiameter < UINT16 && c.ttlThreshold < ttl + c.ttlIncrement < UINT16
    ensures NextTtl(c, ttl) == c.netDiameter
  {
  }

  lemma BelowDiameter(c: Config)
    requires c.Climbing() && c.netDiameter < UINT16 && NextTtl(c, c.netDiameter) >= c.netDiameter
    ensures (c.netDiameter + c.ttlIncrement) % UINT16 > c.ttlThreshold
  {
  }

  // So the search is as specified exactly when nothing wraps harmfully.
  lemma AsSpecifiedIff(c: Config)
    requires c.Climbing()
    ensures AsSpecified(c) <==> NoHarmfulWrap(c)
  {
    hide *;
    if NoHarmfulWrap(c) { NoWrapIsAsSpecified(c); }
    if AsSpecified(c) { OnlyAsSpecifiedWithoutWrap(c); }
  }

  // The defaults of aodv-routing-protocol.cc: rings of 1, 3, 5 and 7 hops and two requests with 35.
  lemma DefaultsExample()
    ensures var c := Config(1, 2, 7, 2, 35, 2, 40, 2800);
      && c.Climbing() && NoHarmfulWrap(c) && Requests(c) == 6
      && (forall i: nat :: i < 4 ==> Request(c, i) == Some(Search(1 + 2 * i, 0)))
      && Request(c, 4) == Some(Search(35, 1)) && Request(c, 5) == Some(Search(35, 2)) && Request(c, 6) == None
  {
    var c := Config(1, 2, 7, 2, 35, 2, 40, 2800);
    hide Request;
    RingIs(c, 4);
    forall i: nat | i < 4
      ensures Request(c, i) == Some(Search(1 + 2 * i, 0))
    {
      RingIs(c, i);
      Climb(c, i);
    }
    FullDiameter(c, 1);
    FullDiameter(c, 2);
    Stops(c, 5);
  }

  // A diameter of 70000 is climbed to and never counted.
  lemma WideDiameterExample()
    ensures var c := Config(1, 2, 7, 2, 70000, 2, 40, 2800);
      && c.Climbing() && !AsSpecified(c) && Requests(c) == 6
      && forall i: nat :: Request(c, i).Some?
  {
    var c := Config(1, 2, 7, 2, 70000, 2, 40, 2800);
    hide Request, AsSpecified;
    forall i: nat
      ensures Request(c, i).Some?
    {
      WideDiameterNeverStops(c, i);
    }
    if AsSpecified(c) { OnlyAsSpecifiedWithoutWrap(c); }
  }

  // ---- waiting ----

  // What all requests with the full diameter up to the k-th are waited for together.
  ghost function FullWaits(c: Config, k: nat): nat
    requires c.Climbing()
  {
    if k == 0 then 0
    else
      var r := Request(c, Rings(c) - 1 + k);
      FullWaits(c, k - 1) + if r.Some? then Wait(c, r.value) else 0
  }

  // The waits double: together they are (2^retries - 1) times the net traversal time.
  lemma {:induction false} FullWaitsTotal(c: Config, k: nat)
    requires c.Climbing() && NoHarmfulWrap(c) && k <= c.rreqRetries
    ensures FullWaits(c, k) + c.netTraversalTime == Times2(k, c.netTraversalTime)
  {
    hide Rings, Request, NoHarmfulWrap;
    if k > 0 {
      FullDiameter(c, k);
      FullWaitsTotal(c, k - 1);
    }
  }

  lemma {:induction false} DoubledIs(k: nat, t: nat)
    ensures Times2(k, t) == Power(2, k) * t
  {
    if k > 0 {
      DoubledIs(k - 1, t);
      assert 2 * (Power(2, k - 1) * t) == 2 * Power(2, k - 1) * t;
    }
  }

  // What the first k requests of the climb are waited for together.
  ghost function RingWaits(c: Config, k: nat): nat {
    if k == 0 then 0
    else
      var r := Request(c, k - 1);
      RingWaits(c, k - 1) + if r.Some? then Wait(c, r.value) else 0
  }

  // Each is waited for as long as two traversals of its ring and of a buffer take: the sum of an
  // arithmetic series.
  lemma {:induction false} RingWaitsTotal(c: Config, k: nat)
    requires c.Climbing() && k <= Rings(c)
    ensures RingWaits(c, k) == c.nodeTraversalTime * (2 * k * (c.ttlStart + c.timeoutBuffer) + c.ttlIncrement * (k * k - k))
  {
    hide Rings, Request;
    if k > 0 {
      RingWaitsTotal(c, k - 1);
      Climb(c, k - 1);
      RingIs(c, k - 1);
      RingWaitIs(c, Ring(c, k - 1), 0);
      var a, n, inc := c.ttlStart + c.timeoutBuffer, c.nodeTraversalTime, c.ttlIncrement;
      NextTerm(n, a, inc, k);
    } else {
      NoTerm(c.nodeTraversalTime, c.ttlStart + c.timeoutBuffer, c.ttlIncrement);
    }
  }

  lemma RingWaitIs(c: Config, ttl: nat, count: nat)
    requires ttl < c.netDiameter
    ensures Wait(c, Search(ttl, count)) == 2 * c.nodeTraversalTime * (ttl + c.timeoutBuffer)
  {
  }

  lemma NoTerm(n: nat, a: nat, inc: nat)
    ensures n * (2 * 0 * a + inc * (0 * 0 - 0)) == 0
  {
  }

  lemma NextTerm(n: int, a: int, inc: int, k: int)
    ensures n * (2 * k * a + inc * (k * k - k)) ==
      n * (2 * (k - 1) * a + inc * ((k - 1) * (k - 1) - (k - 1))) + 2 * n * (a + (k - 1) * inc)
  {
    assert 2 * k * a == 2 * (k - 1) * a + 2 * a;
    assert k * k - k == (k - 1) * (k - 1) - (k - 1) + 2 * (k - 1);
    Terms(n, 2 * (k - 1) * a, 2 * a, inc, (k - 1) * (k - 1) - (k - 1), k - 1);
  }

  lemma Terms(n: int, x: int, y: int, inc: int, p: int, q: int)
    ensures n * (x + y + inc * (p + 2 * q)) == n * (x + inc * p) + n * (y + 2 * (q * inc))
  {
    assert inc * (p + 2 * q) == inc * p + 2 * (q * inc);
  }
}
