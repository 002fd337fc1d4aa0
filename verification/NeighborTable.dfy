/** neighbor.cc: the table of neighbours whose entries expire, and the choice of a relay from it. */
module NeighborTable {
  import opened MacAddress
  import opened Options
  import opened Morton
  import opened RoadGraph
  import opened GeoMove
  import opened Dwelling

  type Ip = nat

  datatype Neighbor = Neighbor(ip: Ip, mac: Mac, expireTime: int, settingTime: int,
                               geohash: bv64, direction: nat, pos: Point)

  // ---- what has been heard so far ----

  // An Update: a neighbour and the time it was good for.
  datatype Heard = Heard(ip: Ip, until: int)

  function Max(a: int, b: int): int { if a < b then b else a }

  // How long anything heard of a neighbour is good for.
  ghost function Latest(history: seq<Heard>, ip: Ip): Option<int> {
    if history == [] then None
    else
      var last, before := history[|history| - 1], Latest(history[..|history| - 1], ip);
      if last.ip != ip then before
      else if before.None? then Some(last.until)
      else Some(Max(last.until, before.value))
  }

  ghost predicate Current(history: seq<Heard>, ip: Ip, now: int) {
    Latest(history, ip).Some? && Latest(history, ip).value >= now
  }

  lemma LatestAfter(history: seq<Heard>, ip: Ip, until: int, other: Ip)
    ensures Latest(history + [Heard(ip, until)], other) ==
      if other != ip then Latest(history, other)
      else Some(if Latest(history, ip).None? then until else Max(until, Latest(history, ip).value))
  {
    var h := history + [Heard(ip, until)];
    assert h[..|h| - 1] == history;
  }

  // The maximum it is: none heard of that neighbour is good for longer, and one is good for as long.
  lemma {:induction false} LatestIsMaximum(history: seq<Heard>, ip: Ip)
    ensures Latest(history, ip).None? <==> forall k :: 0 <= k < |history| ==> history[k].ip != ip
    ensures Latest(history, ip).Some? ==>
      && (forall k :: 0 <= k < |history| && history[k].ip == ip ==> history[k].until <= Latest(history, ip).value)
      && (exists k :: 0 <= k < |history| && history[k] == Heard(ip, Latest(history, ip).value))
  {
    if history != [] {
      var n := |history| - 1;
      var before := history[..n];
      LatestIsMaximum(before, ip);
      if Latest(before, ip).Some? {
        var k :| 0 <= k < |before| && before[k] == Heard(ip, Latest(before, ip).value);
        assert history[k] == before[k];
      }
      assert history[n] == Heard(history[n].ip, history[n].until);
    }
  }

  // ---- the table ----

  ghost predicate DistinctIps(nb: seq<Neighbor>) {
    forall i, j :: 0 <= i < j < |nb| ==> nb[i].ip != nb[j].ip
  }

  ghost predicate Listed(nb: seq<Neighbor>, ip: Ip) {
    exists i :: 0 <= i < |nb| && nb[i].ip == ip
  }

  // The table against the history, at a time no earlier than the last purge: an entry says how
  // long what was heard is good for, and what has no entry is not good any more.
  ghost predicate Refines(nb: seq<Neighbor>, history: seq<Heard>, now: int) {
    && DistinctIps(nb)
    && (forall i :: 0 <= i < |nb| ==> Latest(history, nb[i].ip) == Some(nb[i].expireTime))
    && (forall ip: Ip :: Current(history, ip, now) ==> Listed(nb, ip))
  }

  // std::remove_if with CloseNeighbor; the flag `close` is never set.
  function Live(nb: seq<Neighbor>, now: int): (r: seq<Neighbor>)
    ensures forall e :: e in r <==> e in nb && e.expireTime >= now
  {
    if nb == [] then []
    else (if nb[0].expireTime < now then [] else [nb[0]]) + Live(nb[1..], now)
  }

  lemma {:induction false} LiveDistinct(nb: seq<Neighbor>, now: int)
    requires DistinctIps(nb)
    ensures DistinctIps(Live(nb, now))
  {
    if nb != [] {
      LiveDistinct(nb[1..], now);
      var rest := Live(nb[1..], now);
      forall j | 0 <= j < |rest|
        ensures rest[j].ip != nb[0].ip
      {
        assert rest[j] in nb[1..];
      }
    }
  }

  lemma {:induction false} LiveIsAll(nb: seq<Neighbor>, now: int)
    requires forall i :: 0 <= i < |nb| ==> nb[i].expireTime >= now
    ensures Live(nb, now) == nb
  {
    if nb != [] { LiveIsAll(nb[1..], now); }
  }

  lemma PurgeRefines(nb: seq<Neighbor>, history: seq<Heard>, before: int, now: int)
    requires Refines(nb, history, before) && before <= now
    ensures Refines(Live(nb, now), history, now)
  {
    hide Latest;
    LiveDistinct(nb, now);
    var nb' := Live(nb, now);
    forall i | 0 <= i < |nb'|
      ensures Latest(history, nb'[i].ip) == Some(nb'[i].expireTime)
    {
      assert nb'[i] in nb;
    }
    forall ip: Ip | Current(history, ip, now)
      ensures Listed(nb', ip)
    {
      assert Current(history, ip, before);
      var i :| 0 <= i < |nb| && nb[i].ip == ip;
      assert nb[i] in nb';
      var j :| 0 <= j < |nb'| && nb'[j] == nb[i];
    }
  }

  // After a purge the table lists exactly what is still good.
  lemma ListedIsCurrent(nb: seq<Neighbor>, history: seq<Heard>, now: int, ip: Ip)
    requires Refines(nb, history, now) && (forall i :: 0 <= i < |nb| ==> nb[i].expireTime >= now)
    ensures Listed(nb, ip) <==> Current(history, ip, now)
  {
    hide Latest;
    if i :| 0 <= i < |nb| && nb[i].ip == ip { assert Latest(history, nb[i].ip) == Some(nb[i].expireTime); }
  }

  // Update of an entry that is there: what was not known of it stays unknown, and the cell and the
  // heading it had at first stay as they were.
  function Refreshed(e: Neighbor, expire: int, mac: Mac, pos: Point, now: int): Neighbor {
    e.(expireTime := Max(expire + now, e.expireTime), settingTime := now, mac := if e.mac == NO_MAC then mac else e.mac, pos := pos)
  }

  lemma RefreshRefines(nb: seq<Neighbor>, history: seq<Heard>, i: nat, before: int, now: int, expire: int, mac: Mac, pos: Point)
    requires Refines(nb, history, before) && before <= now && i < |nb|
    ensures Refines(nb[i := Refreshed(nb[i], expire, mac, pos, now)], history + [Heard(nb[i].ip, expire + now)], now)
  {
    hide Latest;
    var nb', h' := nb[i := Refreshed(nb[i], expire, mac, pos, now)], history + [Heard(nb[i].ip, expire + now)];
    forall k | 0 <= k < |nb|
      ensures Latest(h', nb'[k].ip) == Some(nb'[k].expireTime)
    {
      LatestAfter(history, nb[i].ip, expire + now, nb[k].ip);
    }
    forall ip: Ip | Current(h', ip, now)
      ensures Listed(nb', ip)
    {
      LatestAfter(history, nb[i].ip, expire + now, ip);
      if ip == nb[i].ip {
        assert nb'[i].ip == ip;
      } else {
        assert Current(history, ip, before);
        var k :| 0 <= k < |nb| && nb[k].ip == ip;
        assert nb'[k].ip == ip;
      }
    }
  }

  lemma OneOf(nb: seq<Neighbor>, history: seq<Heard>, now: int, i: nat)
    requires Refines(nb, history, now) && i < |nb|
    ensures forall k :: 0 <= k < |nb| && k != i ==> nb[k].ip != nb[i].ip
  {
    hide Latest;
  }

  // Update of a neighbour that is not listed, with the purge that follows.
  lemma NewRefines(nb: seq<Neighbor>, history: seq<Heard>, e: Neighbor, before: int, now: int)
    requires Refines(nb, history, before) && before <= now && !Listed(nb, e.ip)
    ensures Refines(Live(nb + [e], now), history + [Heard(e.ip, e.expireTime)], now)
  {
    hide Latest;
    var all, h' := nb + [e], history + [Heard(e.ip, e.expireTime)];
    var nb' := Live(all, now);
    forall i, j | 0 <= i < j < |all|
      ensures all[i].ip != all[j].ip
    {
      if j == |nb| { assert nb[i].ip != e.ip; }
    }
    LiveDistinct(all, now);
    assert !Current(history, e.ip, before);
    forall k | 0 <= k < |nb'|
      ensures Latest(h', nb'[k].ip) == Some(nb'[k].expireTime)
    {
      LatestAfter(history, e.ip, e.expireTime, nb'[k].ip);
      assert nb'[k] in all;
      if nb'[k] in nb {
        var i :| 0 <= i < |nb| && nb[i] == nb'[k];
      }
    }
    forall ip: Ip | Current(h', ip, now)
      ensures Listed(nb', ip)
    {
      LatestAfter(history, e.ip, e.expireTime, ip);
      if ip == e.ip {
        assert all[|nb|] == e && e in nb';
      } else {
        assert Current(history, ip, before);
        var i :| 0 <= i < |nb| && nb[i].ip == ip;
        assert all[i] == nb[i] && nb[i] in nb';
      }
    }
  }

  class Neighbors {
    var nb: seq<Neighbor>
    ghost var history: seq<Heard>
    ghost var clock: int

    ghost predicate Valid()
      reads this
    {
      Refines(nb, history, clock)
    }

    constructor (ghost now: int)
      ensures Valid() && nb == [] && history == [] && clock == now
    {
      nb, history, clock := [], [], now;
    }

    method Purge(now: int)
      requires Valid() && clock <= now
      modifies this
      ensures Valid() && clock == now && history == old(history) && nb == Live(old(nb), now)
    {
      PurgeRefines(nb, history, clock, now);
      clock := now;
      nb := Live(nb, now);
    }

    method Update(ip: Ip, expire: int, mac: Mac, geohash: bv64, direction: nat, pos: Point, now: int)
      requires Valid() && clock <= now
      modifies this
      ensures Valid() && clock == now && history == old(history) + [Heard(ip, expire + now)]
      ensures !Listed(old(nb), ip) ==>
        nb == Live(old(nb) + [Neighbor(ip, mac, expire + now, now, geohash, direction, pos)], now)
      ensures Listed(old(nb), ip) ==>
        exists i :: 0 <= i < |nb| == |old(nb)| && old(nb)[i].ip == ip
          && nb == old(nb)[i := Refreshed(old(nb)[i], expire, mac, pos, now)]
      // what is kept of the entry and what is new
      ensures Listed(old(nb), ip) ==> |nb| == |old(nb)| && forall i :: 0 <= i < |nb| ==>
        if old(nb)[i].ip != ip then nb[i] == old(nb)[i]
        else
          && nb[i].ip == ip && nb[i].geohash == old(nb)[i].geohash && nb[i].direction == old(nb)[i].direction
          && nb[i].pos == pos && nb[i].settingTime == now
          && nb[i].mac == (if old(nb)[i].mac == [0, 0, 0, 0, 0, 0] then mac else old(nb)[i].mac)
          && nb[i].expireTime >= expire + now && nb[i].expireTime >= old(nb)[i].expireTime
          && (nb[i].expireTime == expire + now || nb[i].expireTime == old(nb)[i].expireTime)
      ensures !Listed(old(nb), ip) ==> forall e ::
        e in nb <==> e.expireTime >= now && (e in old(nb) || e == Neighbor(ip, mac, expire + now, now, geohash, direction, pos))
    {
      hide Refines, Latest, Live;
      var i := 0;
      while i < |nb|
        invariant 0 <= i <= |nb| && nb == old(nb) && history == old(history) && clock == old(clock) && Valid()
        invariant forall k :: 0 <= k < i ==> nb[k].ip != ip
      {
        if nb[i].ip == ip {
          RefreshRefines(nb, history, i, clock, now, expire, mac, pos);
          OneOf(nb, history, clock, i);
          nb := nb[i := Refreshed(nb[i], expire, mac, pos, now)];
          history, clock := history + [Heard(ip, expire + now)], now;
          return;
        }
        i := i + 1;
      }
      var neighbor := Neighbor(ip, mac, expire + now, now, geohash, direction, pos);
      NewRefines(nb, history, neighbor, clock, now);
      nb := Live(nb + [neighbor], now);
      history, clock := history + [Heard(ip, expire + now)], now;
    }

    // IsNeighbor: exactly when something heard of it is still good.
    method IsNeighbor(ip: Ip, now: int) returns (found: bool)
      requires Valid() && clock <= now
      modifies this
      ensures Valid() && clock == now && history == old(history) && nb == Live(old(nb), now)
      ensures found <==> Current(history, ip, now)
    {
      hide Refines, Latest, Live, Current;
      Purge(now);
      PurgedIsLive(old(nb), now);
      ListedIsCurrent(nb, history, now, ip);
      var i := 0;
      while i < |nb|
        invariant 0 <= i <= |nb| && forall k :: 0 <= k < i ==> nb[k].ip != ip
      {
        if nb[i].ip == ip { return true; }
        i := i + 1;
      }
      found := false;
    }

    // GetExpireTime: how long it is still good, 0 when it is not.
    method GetExpireTime(ip: Ip, now: int) returns (left: int)
      requires Valid() && clock <= now
      modifies this
      ensures Valid() && clock == now && history == old(history) && nb == Live(old(nb), now)
      ensures left == if Current(history, ip, now) then Latest(history, ip).value - now else 0
    {
      Purge(now);
      hide Latest;
      PurgedIsLive(old(nb), now);
      ListedIsCurrent(nb, history, now, ip);
      var i := 0;
      while i < |nb|
        invariant 0 <= i <= |nb| && forall k :: 0 <= k < i ==> nb[k].ip != ip
      {
        if nb[i].ip == ip {
          assert Latest(history, nb[i].ip) == Some(nb[i].expireTime);
          return nb[i].expireTime - now;
        }
        i := i + 1;
      }
      left := 0;
    }

    // GetGeohashFromIpInNb: the cell, address and position of a neighbour that is still good, 0 when
    // it is not.
    method GetGeohashFromIp(ip: Ip, now: int) returns (geohash: bv64, mac: Mac, pos: Point, ghost k: nat)
      requires Valid() && clock <= now
      modifies this
      ensures Valid() && clock == now && history == old(history) && nb == Live(old(nb), now)
      ensures Listed(nb, ip) ==>
        k < |nb| && nb[k].ip == ip && geohash == nb[k].geohash && mac == nb[k].mac && pos == nb[k].pos
      ensures !Listed(nb, ip) ==> geohash == 0
    {
      Purge(now);
      var i := 0;
      while i < |nb|
        invariant 0 <= i <= |nb| && forall k :: 0 <= k < i ==> nb[k].ip != ip
      {
        if nb[i].ip == ip { return nb[i].geohash, nb[i].mac, nb[i].pos, i; }
        i := i + 1;
      }
      geohash, mac, pos, k := 0, NO_MAC, Point(0.0, 0.0), 0;
    }

    // GetnbFromsetBest: the first entry still good that stays longest in the set.
    method GetnbFromsetBest(zone: GeoHashSetCoordinate, now: int) returns (ret: int, retMac: Mac, ghost at: nat)
      requires Valid() && clock <= now
      requires zone.geohashset.Length0 == zone.sy && zone.geohashset.Length1 == zone.sx
      modifies this
      ensures Valid() && clock == now && history == old(history) && nb == Live(old(nb), now)
      ensures var stays := StaysIn(nb, Rows(zone.geohashset), zone.sx, zone.sy);
        && ret == (if (zone.sx == 3 || zone.sy == 3) && exists i :: 0 <= i < |stays| && stays[i] > 0 then 1 else 0)
        && (ret == 1 ==> FirstLongest(stays, at) && retMac == nb[at].mac)
    {
      hide *;
      var best, dtimeBest, dtimeCurr := NO_MAC, 0, 0;
      var dtimeMax := if zone.sx > zone.sy then zone.sx else zone.sy;
      Purge(now);
      at := 0;
      if zone.sx != 3 && zone.sy != 3 { return 0, NO_MAC, 0; }
      ghost var rows := Rows(zone.geohashset);
      ghost var stays := StaysIn(nb, rows, zone.sx, zone.sy);
      StaysBound(nb, rows, zone.sx, zone.sy, dtimeMax);
      NothingLooked(stays, dtimeMax);
      var i := 0;
      while i < |nb|
        invariant 0 <= i <= |nb| && Rows(zone.geohashset) == rows && StaysIn(nb, rows, zone.sx, zone.sy) == stays
        invariant nb == Live(old(nb), now) && Valid() && clock == now && history == old(history)
        invariant BestSoFar(stays, i, at, dtimeBest, dtimeMax) && (dtimeBest != 0 ==> at < |nb| && best == nb[at].mac)
      {
        dtimeCurr := GetDtime(nb[i].geohash, nb[i].direction, zone);
        OneMoreLooked(stays, i, at, dtimeBest, dtimeCurr, dtimeMax);
        if dtimeCurr == dtimeMax {
          return 1, nb[i].mac, i;
        } else if dtimeCurr > dtimeBest {
          dtimeBest := dtimeCurr;
          best := nb[i].mac;
          at := i;
        }
        i := i + 1;
      }
      AllLooked(stays, at, dtimeBest, dtimeMax);
      if dtimeBest > 0 {
        return 1, best, at;
      } else {
        return 0, NO_MAC, 0;
      }
    }
  }

  // How long each entry stays in a set of cells.
  ghost function StaysIn(nb: seq<Neighbor>, rows: seq<seq<bv64>>, sx: int, sy: int): (stays: seq<int>)
    ensures |stays| == |nb| && forall i :: 0 <= i < |nb| ==> stays[i] == TimeIn(rows, sx, sy, nb[i].geohash, nb[i].direction)
  {
    seq(|nb|, i requires 0 <= i < |nb| => TimeIn(rows, sx, sy, nb[i].geohash, nb[i].direction))
  }

  // No time is longer than time k, which is positive, and none before it is as long.
  ghost predicate FirstLongest(stays: seq<int>, k: nat) {
    && k < |stays| && stays[k] > 0
    && (forall i :: 0 <= i < |stays| ==> stays[i] <= stays[k])
    && (forall i :: 0 <= i < k ==> stays[i] < stays[k])
  }

  // What is known of the entries before i: the longest stay, below the maximum, and the first entry
  // with it.
  ghost predicate BestSoFar(stays: seq<int>, i: nat, at: nat, best: int, max: int) {
    && i <= |stays| && 0 <= best < max && (forall k :: 0 <= k < |stays| ==> stays[k] <= max)
    && (forall k :: 0 <= k < i ==> stays[k] <= best)
    && (best != 0 ==> at < i && stays[at] == best && forall k :: 0 <= k < at ==> stays[k] < best)
  }

  lemma OneMoreLooked(stays: seq<int>, i: nat, at: nat, best: int, dtime: int, max: int)
    requires BestSoFar(stays, i, at, best, max) && i < |stays| && dtime == stays[i]
    ensures dtime == max ==> FirstLongest(stays, i)
    ensures dtime != max ==>
      if dtime > best then BestSoFar(stays, i + 1, i, dtime, max) else BestSoFar(stays, i + 1, at, best, max)
  {
  }

  lemma AllLooked(stays: seq<int>, at: nat, best: int, max: int)
    requires BestSoFar(stays, |stays|, at, best, max)
    ensures (exists i :: 0 <= i < |stays| && stays[i] > 0) <==> best > 0
    ensures best > 0 ==> FirstLongest(stays, at)
  {
  }

  lemma NothingLooked(stays: seq<int>, max: int)
    requires max > 0 && forall k :: 0 <= k < |stays| ==> stays[k] <= max
    ensures BestSoFar(stays, 0, 0, 0, max)
  {
  }

  lemma StaysBound(nb: seq<Neighbor>, rows: seq<seq<bv64>>, sx: int, sy: int, max: int)
    requires |rows| == sy <= max && sx <= max && max > 0 && forall i :: 0 <= i < sy ==> |rows[i]| == sx
    ensures forall k :: 0 <= k < |nb| ==> StaysIn(nb, rows, sx, sy)[k] <= max
  {
    hide TimeIn;
    forall k | 0 <= k < |nb|
      ensures TimeIn(rows, sx, sy, nb[k].geohash, nb[k].direction) <= max
    {
      TimeInMeaning(rows, sx, sy, nb[k].geohash, nb[k].direction);
    }
  }

  // ---- the zone around an intersection ----

  ghost function Stays(e: Neighbor, center: bv64): int {
    DwellingTime(e.geohash, e.direction, center)
  }

  // Some entry is in the zone.
  ghost predicate Served(nb: seq<Neighbor>, center: bv64) {
    exists i :: 0 <= i < |nb| && InZone(nb[i].geohash, center)
  }

  // Entry k is in the zone, none stays there longer, and none before it stays as long.
  ghost predicate FirstBest(nb: seq<Neighbor>, k: nat, center: bv64) {
    && k < |nb| && InZone(nb[k].geohash, center)
    && (forall i :: 0 <= i < |nb| ==> Stays(nb[i], center) <= Stays(nb[k], center))
    && (forall i :: 0 <= i < k ==> Stays(nb[i], center) < Stays(nb[k], center))
  }

  // There the entry found is the first unexpired one of maximal dwelling time, and there is one
  // exactly when some entry is in the zone.
  lemma BestInZone(nb: seq<Neighbor>, zone: array2<bv64>, center: bv64)
    requires zone.Length0 == zone.Length1 == 3 && IsZone(zone, center) && Fits(center, GEOHASH_STEP_BIT)
    ensures var stays := StaysIn(nb, Rows(zone), 3, 3);
      && ((exists i :: 0 <= i < |stays| && stays[i] > 0) <==> Served(nb, center))
      && forall k: nat :: FirstLongest(stays, k) <==> FirstBest(nb, k, center)
  {
    hide TimeIn, DwellingTime, InZone, Fits, IsZone, Rows;
    var stays := StaysIn(nb, Rows(zone), 3, 3);
    forall i | 0 <= i < |nb|
      ensures stays[i] == Stays(nb[i], center) && (InZone(nb[i].geohash, center) <==> stays[i] > 0)
    {
      TimeInZone(zone, center, nb[i].geohash, nb[i].direction);
      DwellingTimeMeaning(nb[i].geohash, nb[i].direction, center);
    }
  }

  lemma PurgedIsLive(nb: seq<Neighbor>, now: int)
    ensures forall i :: 0 <= i < |Live(nb, now)| ==> Live(nb, now)[i].expireTime >= now
  {
    forall i | 0 <= i < |Live(nb, now)|
      ensures Live(nb, now)[i].expireTime >= now
    {
      assert Live(nb, now)[i] in Live(nb, now);
    }
  }
}
