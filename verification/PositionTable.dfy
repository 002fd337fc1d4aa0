/** gpsr-ptable.cc: the neighbours a node has heard from, with their positions and times. The
    std::map behind it is a sequence sorted by address. */
module PositionTable {
  datatype Place = Place(x: real, y: real)

  // The square of CalculateDistance; the protocol only compares distances.
  function Away(p: Place, q: Place): real {
    (p.x - q.x) * (p.x - q.x) + (p.y - q.y) * (p.y - q.y)
  }

  // So it does: squares of lengths are in the same order as the lengths.
  lemma CloserIff(p: Place, q: Place, r: Place, d: real, e: real)
    requires d >= 0.0 && d * d == (p.x - q.x) * (p.x - q.x) + (p.y - q.y) * (p.y - q.y)
    requires e >= 0.0 && e * e == (r.x - q.x) * (r.x - q.x) + (r.y - q.y) * (r.y - q.y)
    ensures Away(p, q) < Away(r, q) <==> d < e
  {
    SquaresInOrder(d, e, Away(p, q), Away(r, q));
  }

  lemma SquaresInOrder(d: real, e: real, x: real, y: real)
    requires d >= 0.0 && e >= 0.0 && x == d * d && y == e * e
    ensures x < y <==> d < e
  {
    if d < e { Larger(d, e, x, y); } else if e < d { Larger(e, d, y, x); }
  }

  lemma Larger(d: real, e: real, x: real, y: real)
    requires 0.0 <= d < e && x == d * d && y == e * e
    ensures x < y
  {
    var z := e * d;
    TimesGrows(d, e, d, x, z);
    TimesGrows(d, e, e, z, y);
  }

  lemma TimesGrows(a: real, b: real, c: real, x: real, y: real)
    requires a < b && 0.0 <= c && x == a * c && y == b * c
    ensures x <= y && (c > 0.0 ==> x < y)
  {
    if c > 0.0 { PositiveTimes(a, b, c, x, y); } else { ZeroTimes(a, b, c, x, y); }
  }

  lemma PositiveTimes(a: real, b: real, c: real, x: real, y: real)
    requires a < b && 0.0 < c && x == a * c && y == b * c
    ensures x < y
  {
  }

  lemma ZeroTimes(a: real, b: real, c: real, x: real, y: real)
    requires c == 0.0 && x == a * c && y == b * c
    ensures x == y
  {
  }

  // An address; 0 is Ipv4Address::GetZero, which stands for no address.
  type Ip = nat

  datatype Entry = Entry(id: Ip, pos: Place, time: int)

  ghost predicate Sorted(t: seq<Entry>) {
    forall i, j :: 0 <= i < j < |t| ==> t[i].id < t[j].id
  }

  // isNeighbour
  predicate IsNeighbour(t: seq<Entry>, id: Ip) {
    exists i :: 0 <= i < |t| && t[i].id == id
  }

  function UpdateTime(e: Entry): int {
    if e.id == 0 then 0 else e.time
  }

  predicate Expired(e: Entry, lifetime: int, now: int) {
    lifetime + UpdateTime(e) <= now
  }

  // Entry k is the closest to a position, and the first such.
  ghost predicate FirstClosest(t: seq<Entry>, k: nat, position: Place) {
    && k < |t|
    && (forall i :: 0 <= i < |t| ==> Away(t[k].pos, position) <= Away(t[i].pos, position))
    && (forall i :: 0 <= i < k ==> Away(t[k].pos, position) < Away(t[i].pos, position))
  }

  // The greedy choice: the first closest neighbour when it is closer than the node itself.
  ghost predicate IsBest(t: seq<Entry>, position: Place, nodePos: Place, r: Ip) {
    || (exists k: nat :: FirstClosest(t, k, position) && Away(t[k].pos, position) < Away(nodePos, position) && r == t[k].id)
    || ((forall i :: 0 <= i < |t| ==> Away(nodePos, position) <= Away(t[i].pos, position)) && r == 0)
  }

  // There is one greedy choice at most, and with real addresses in the table it is a neighbour
  // exactly when some neighbour is strictly closer.
  lemma BestIsUnique(t: seq<Entry>, position: Place, nodePos: Place, r: Ip, q: Ip)
    requires IsBest(t, position, nodePos, r) && IsBest(t, position, nodePos, q)
    ensures r == q
    ensures (forall i :: 0 <= i < |t| ==> t[i].id != 0) ==>
      (r != 0 <==> exists i :: 0 <= i < |t| && Away(t[i].pos, position) < Away(nodePos, position))
  {
    hide Away;
    forall k: nat, l: nat | FirstClosest(t, k, position) && FirstClosest(t, l, position)
      ensures k == l
    {
    }
    if exists i :: 0 <= i < |t| && Away(t[i].pos, position) < Away(nodePos, position) {
      var k: nat :| FirstClosest(t, k, position) && Away(t[k].pos, position) < Away(nodePos, position) && r == t[k].id;
    }
  }

  lemma WithoutAt(t: seq<Entry>, i: nat)
    requires Sorted(t) && i < |t|
    ensures var t' := t[..i] + t[i + 1..];
      && Sorted(t') && (forall e :: e in t' <==> e in t && e.id != t[i].id)
      && (forall k :: 0 <= k < i ==> t'[k] == t[k]) && (forall k :: i <= k < |t'| ==> t'[k].id > t[i].id)
  {
    var t' := t[..i] + t[i + 1..];
    assert forall k :: 0 <= k < |t'| ==> t'[k] == t[if k < i then k else k + 1];
    forall e | e in t && e.id != t[i].id
      ensures e in t'
    {
      var k :| 0 <= k < |t| && t[k] == e;
      assert t'[if k < i then k else k - 1] == e;
    }
  }

  lemma InsertedAt(t: seq<Entry>, i: nat, e: Entry)
    requires Sorted(t) && i <= |t|
    requires (forall k :: 0 <= k < i ==> t[k].id < e.id) && forall k :: i <= k < |t| ==> e.id < t[k].id
    ensures var t' := t[..i] + [e] + t[i..];
      Sorted(t') && forall f :: f in t' <==> f == e || f in t
  {
    var t' := t[..i] + [e] + t[i..];
    assert forall k :: 0 <= k < |t'| ==> t'[k] == if k < i then t[k] else if k == i then e else t[k - 1];
    assert t == t[..i] + t[i..];
    assert forall f :: f in t <==> f in t[..i] || f in t[i..];
  }

  class Table {
    const lifetime: int
    var table: seq<Entry>

    constructor (lifetime: int)
      ensures table == [] && this.lifetime == lifetime && Sorted(table)
    {
      this.lifetime, table := lifetime, [];
    }

    // AddEntry: an entry that is there is erased first.
    method AddEntry(id: Ip, pos: Place, now: int)
      requires Sorted(table)
      modifies this
      ensures Sorted(table)
      ensures forall e :: e in table <==> e == Entry(id, pos, now) || (e in old(table) && e.id != id)
    {
      var i := 0;
      while i < |table| && table[i].id < id
        invariant 0 <= i <= |table| && table == old(table)
        invariant forall k :: 0 <= k < i ==> table[k].id < id
      {
        i := i + 1;
      }
      if i < |table| && table[i].id == id {
        WithoutAt(table, i);
        table := table[..i] + table[i + 1..];
      }
      InsertedAt(table, i, Entry(id, pos, now));
      table := table[..i] + [Entry(id, pos, now)] + table[i..];
    }

    // std::map::erase
    method Erase(id: Ip)
      requires Sorted(table)
      modifies this
      ensures Sorted(table)
      ensures forall e :: e in table <==> e in old(table) && e.id != id
    {
      var i := 0;
      while i < |table|
        invariant 0 <= i <= |table| && table == old(table)
        invariant forall k :: 0 <= k < i ==> table[k].id != id
      {
        if table[i].id == id {
          WithoutAt(table, i);
          table := table[..i] + table[i + 1..];
          return;
        }
        i := i + 1;
      }
    }

    // Purge: the expired entries go, the others stay as they are.
    method Purge(now: int)
      requires Sorted(table)
      modifies this
      ensures Sorted(table)
      ensures forall e :: e in table <==> e in old(table) && !Expired(e, lifetime, now)
      ensures forall e :: e in table && e.id != 0 ==> e in old(table) && now < e.time + lifetime
      ensures forall e :: e in old(table) && e.id != 0 && now < e.time + lifetime ==> e in table
    {
      var toErase: seq<Ip> := [];
      var i := 0;
      while i < |table|
        invariant 0 <= i <= |table| && table == old(table)
        invariant forall k :: 0 <= k < |table| ==> (table[k].id in toErase <==> k < i && Expired(table[k], lifetime, now))
      {
        if Expired(table[i], lifetime, now) { toErase := [table[i].id] + toErase; }
        i := i + 1;
      }
      var n := 0;
      while n < |toErase|
        invariant 0 <= n <= |toErase| && Sorted(table)
        invariant forall e :: e in table <==> e in old(table) && e.id !in toErase[..n]
      {
        Erase(toErase[n]);
        n := n + 1;
      }
    }

    // BestNeighbor
    method BestNeighbor(position: Place, nodePos: Place, now: int) returns (r: Ip)
      requires Sorted(table)
      modifies this
      ensures Sorted(table)
      ensures forall e :: e in table <==> e in old(table) && !Expired(e, lifetime, now)
      ensures IsBest(table, position, nodePos, r)
    {
      Purge(now);
      if table == [] { return 0; }
      hide Away;
      var bestFoundID, bestFoundDistance := table[0].id, Away(table[0].pos, position);
      ghost var best: nat := 0;
      var i := 0;
      while i < |table|
        invariant 0 <= i <= |table| && best < |table| && (i == 0 ==> best == 0)
        invariant bestFoundID == table[best].id && bestFoundDistance == Away(table[best].pos, position)
        invariant forall k :: 0 <= k < i ==> bestFoundDistance <= Away(table[k].pos, position)
        invariant forall k :: 0 <= k < best ==> bestFoundDistance < Away(table[k].pos, position)
      {
        if bestFoundDistance > Away(table[i].pos, position) {
          bestFoundID, bestFoundDistance := table[i].id, Away(table[i].pos, position);
          best := i;
        }
        i := i + 1;
      }
      assert FirstClosest(table, best, position);
      r := if Away(nodePos, position) > bestFoundDistance then bestFoundID else 0;
    }
  }

  // The entries of the other table, with the positions the nodes are at.
  ghost function Heard(ips: seq<Ip>, posOf: Ip -> Place): (t: seq<Entry>)
    ensures |t| == |ips| && forall i :: 0 <= i < |t| ==> t[i].id == ips[i] && t[i].pos == posOf(ips[i])
  {
    seq(|ips|, i requires 0 <= i < |ips| => Entry(ips[i], posOf(ips[i]), 0))
  }

  // BestNeighbor when the neighbours are those of the other table, which is not purged for it.
  method BestNeighborFromMbr(ips: seq<Ip>, posOf: Ip -> Place, position: Place, nodePos: Place) returns (r: Ip)
    ensures IsBest(Heard(ips, posOf), position, nodePos, r)
  {
    if ips == [] { return 0; }
    hide Away;
    var bestFoundID, bestFoundDistance := ips[0], Away(posOf(ips[0]), position);
    ghost var t, best: nat := Heard(ips, posOf), 0;
    for i := 1 to |ips|
      invariant best < i && bestFoundID == ips[best] && bestFoundDistance == Away(t[best].pos, position)
      invariant forall k :: 0 <= k < i ==> bestFoundDistance <= Away(t[k].pos, position)
      invariant forall k :: 0 <= k < best ==> bestFoundDistance < Away(t[k].pos, position)
    {
      var dist := Away(posOf(ips[i]), position);
      if bestFoundDistance > dist {
        bestFoundID, bestFoundDistance := ips[i], dist;
        best := i;
      }
    }
    assert FirstClosest(t, best, position);
    r := if Away(nodePos, position) > bestFoundDistance then bestFoundID else 0;
  }
}
