/** gpsr.cc: greedy forwarding with a recovery mode. The header of a packet in recovery carries
    the position at which it entered; that position is what keeps runs from repeating themselves. */
module Gpsr {
  import opened Options
  import opened PositionTable
  import opened RequestLedger
  import Waiting = RequestQueue

  // PositionHeader
  datatype Header = Header(src: Place, dst: Place, updated: nat, rec: Place, inRec: nat, last: Place)

  datatype Outcome = Dropped | Sent(next: Ip, hdr: Header)

  const ORIGIN := Place(0.0, 0.0)

  // BestAngle, by the position of the previous hop and that of the node; 0 when there is no neighbour
  type Angle = (Place, Place) -> Ip

  // What the location service knows of the destination: a time and a position.
  datatype Fix = Fix(time: nat, pos: Place)

  // ---- what a node decides ----

  // Recovery ends at a node closer to the destination than where it began.
  predicate LeavesRecovery(pos: Place, hdr: Header) {
    hdr.inRec == 1 && Away(pos, hdr.dst) < Away(hdr.rec, hdr.dst)
  }

  predicate StaysInRecovery(pos: Place, hdr: Header) {
    hdr.inRec != 0 && !LeavesRecovery(pos, hdr)
  }

  ghost predicate Perimeter(pos: Place, hdr: Header, angle: Angle, o: Outcome) {
    var next := angle(hdr.last, pos);
    o == if next == 0 then Dropped else Sent(next, hdr.(inRec := 1, last := pos))
  }

  // The newer of what the header and the location service say of the destination.
  function Newer(hdr: Header, fix: Fix): Fix {
    if fix.time > hdr.updated then fix else Fix(hdr.updated, hdr.dst)
  }

  // The destination itself when it is a neighbour; else the greedy choice; else recovery.
  ghost predicate Chooses(pos: Place, live: seq<Entry>, dst: Ip, dstPos: Place, greedy: Header, recovery: Header,
                          angle: Angle, o: Outcome)
  {
    if IsNeighbour(live, dst) then o == Sent(dst, greedy)
    else
      exists next :: IsBest(live, dstPos, pos, next) &&
        (next != 0 ==> o == Sent(next, greedy)) && (next == 0 ==> Perimeter(pos, recovery, angle, o))
  }

  // Forwarding: on along the perimeter, or a new choice. A new recovery starts from the edge to the
  // destination and keeps the position of the destination that came with the packet.
  ghost predicate Forwards(pos: Place, live: seq<Entry>, dst: Ip, fix: Fix, hdr: Header, angle: Angle, o: Outcome) {
    if StaysInRecovery(pos, hdr) then Perimeter(pos, hdr, angle, o)
    else
      var to := Newer(hdr, fix);
      Chooses(pos, live, dst, to.pos, Header(hdr.src, to.pos, to.time, ORIGIN, 0, pos),
              hdr.(inRec := 1, rec := pos, last := to.pos), angle, o)
  }

  // What the source does with a packet that already has its headers: at once in RouteOutput, or
  // from the queue of packets that waited for the location service.
  ghost predicate Originates(pos: Place, live: seq<Entry>, dst: Ip, dstPos: Place, hdr: Header, angle: Angle, o: Outcome) {
    Chooses(pos, live, dst, dstPos, hdr, hdr.(inRec := 1, rec := pos), angle, o)
  }

  class Router {
    const pos: Place
    const neighbours: Table

    constructor (pos: Place)
      ensures this.pos == pos && fresh(neighbours) && Sorted(neighbours.table)
    {
      this.pos := pos;
      neighbours := new Table(1);
    }

    // RecoveryMode
    method RecoveryMode(hdr: Header, angle: Angle) returns (o: Outcome)
      ensures Perimeter(pos, hdr, angle, o)
    {
      var posHeader := hdr.(inRec := 1, last := pos);
      var nextHop := angle(hdr.last, pos);
      if nextHop == 0 { return Dropped; }
      o := Sent(nextHop, posHeader);
    }

    // Forwarding
    method Forwarding(header: Header, dst: Ip, fix: Fix, now: int, angle: Angle) returns (o: Outcome)
      requires Sorted(neighbours.table)
      modifies neighbours
      ensures Sorted(neighbours.table)
      ensures forall e :: e in neighbours.table <==> e in old(neighbours.table) && !Expired(e, neighbours.lifetime, now)
      ensures Forwards(pos, neighbours.table, dst, fix, header, angle, o)
      // the header that goes out
      ensures o.Sent? && o.hdr.inRec != 1 ==>
        var newer := fix.time > header.updated;
        o.hdr == Header(header.src, if newer then fix.pos else header.dst, if newer then fix.time else header.updated, Place(0.0, 0.0), 0, pos)
      ensures o.Sent? && o.hdr.inRec == 1 ==>
        var stays := header.inRec != 0 && !(header.inRec == 1 && Away(pos, header.dst) < Away(header.rec, header.dst));
        o.hdr == Header(header.src, header.dst, header.updated, if stays then header.rec else pos, 1, pos)
    {
      hide IsBest, Away;
      neighbours.Purge(now);
      var hdr, dstPos, updated, inRec := header, header.dst, header.updated, header.inRec;
      if inRec == 1 {
        var d1, d2 := Away(pos, dstPos), Away(hdr.rec, dstPos);
        if d1 < d2 {
          inRec := 0;
          hdr := hdr.(inRec := 0);
        }
      }
      if inRec != 0 {
        o := RecoveryMode(hdr, angle);
        return;
      }
      if fix.time > updated { dstPos, updated := fix.pos, fix.time; }
      if IsNeighbour(neighbours.table, dst) {
        return Sent(dst, Header(hdr.src, dstPos, updated, ORIGIN, 0, pos));
      }
      ghost var purged := neighbours.table;
      var nextHop := neighbours.BestNeighbor(dstPos, pos, now);
      SameNeighbours(purged, neighbours.table, dst);
      if nextHop != 0 {
        return Sent(nextHop, Header(hdr.src, dstPos, updated, ORIGIN, 0, pos));
      }
      hdr := hdr.(inRec := 1, rec := pos, last := dstPos);
      assert hdr == header.(inRec := 1, rec := pos, last := dstPos);
      assert IsBest(neighbours.table, Newer(header, fix).pos, pos, nextHop);
      o := RecoveryMode(hdr, angle);
    }

    // SendPacketFromQueue; contentOf gives what a packet that waits in the queue holds, own is the
    // address of the first interface. Each packet that waited for dst is taken from the queue and
    // decided on, in order, up to one that ends the loop; or all are dropped there when the location
    // service has given up.
    method SendPacketFromQueue(queue: Waiting.RequestQueue, contentOf: QueueEntry -> Content, own: Ip, dst: Ip,
                               inSearch: bool, found: Option<Place>, now: int, angle: Angle)
      returns (done: bool, taken: seq<QueueEntry>, fates: seq<Fate>)
      requires Sorted(neighbours.table) && queue.Valid() && queue.clock <= now
      modifies neighbours, queue
      ensures Sorted(neighbours.table) && forall e :: e in neighbours.table ==> e in old(neighbours.table)
      ensures queue.Valid() && |taken| == |fates|
      ensures inSearch ==> !done && taken == [] && queue.queue == old(queue.queue) && queue.errors == old(queue.errors)
      ensures !inSearch && found.None? ==>
        && done && taken == [] && queue.queue == Remaining(Waiting.Fresh(old(queue.queue), now), Waiting.For(dst))
        && queue.errors == old(queue.errors) + Waiting.Outdated(old(queue.queue), now)
                           + Leaving(Waiting.Fresh(old(queue.queue), now), Waiting.For(dst))
      ensures !inSearch && found.Some? ==>
        && queue.errors == old(queue.errors) + Waiting.Outdated(old(queue.queue), now)
        && TakenInTurn(old(queue.queue), dst, now, queue.queue, taken, done)
        && UpToUnknown(taken, contentOf, FallsBack(pos, neighbours.table, dst, found.value), done)
        && AllHandled(pos, neighbours.table, dst, found.value, own, contentOf, taken, angle, fates)
    {
      taken, fates := [], [];
      if inSearch { return false, [], []; }
      done := true;
      hide IsBest, Away, Waiting.RequestQueue.Valid, Waiting.Fresh, Waiting.Outdated, Remaining, Leaving, Waiting.For,
        TakenInTurn, UpToUnknown, AllHandled;
      if found.None? {
        queue.DropPacketWithDst(dst, now);
        return;
      }
      var nextHop, recovery := dst, false;
      if !IsNeighbour(neighbours.table, dst) {
        ghost var before := neighbours.table;
        nextHop := neighbours.BestNeighbor(found.value, pos, now);
        FewerNeighbours(before, neighbours.table, dst);
        recovery := nextHop == 0;
      }
      FallsBackIs(pos, neighbours.table, dst, found.value, nextHop, recovery);
      done, taken, fates := SendAll(queue, contentOf, own, dst, found.value, nextHop, recovery, now, angle);
    }

    // The two loops over the queue: into recovery when there is no next hop, else to it.
    method SendAll(queue: Waiting.RequestQueue, contentOf: QueueEntry -> Content, own: Ip, dst: Ip, ghost dstPos: Place,
                   nextHop: Ip, recovery: bool, now: int, angle: Angle)
      returns (done: bool, taken: seq<QueueEntry>, fates: seq<Fate>)
      requires queue.Valid() && queue.clock <= now
      requires NextHopIs(pos, neighbours.table, dst, dstPos, nextHop, recovery)
      modifies queue
      ensures queue.Valid() && |taken| == |fates|
      ensures queue.errors == old(queue.errors) + Waiting.Outdated(old(queue.queue), now)
      ensures TakenInTurn(old(queue.queue), dst, now, queue.queue, taken, done)
      ensures UpToUnknown(taken, contentOf, recovery, done)
      ensures AllHandled(pos, neighbours.table, dst, dstPos, own, contentOf, taken, angle, fates)
    {
      hide *;
      taken, fates := [], [];
      ghost var q0, live, errors := queue.queue, neighbours.table, queue.errors + Waiting.Outdated(queue.queue, now);
      var read := NOTHING_READ;
      Waiting.FreshIsDrained(q0, dst, now);
      NoneYet(pos, live, dst, dstPos, own, contentOf, recovery, angle);
      var entry := queue.Dequeue(dst, now);
      AfterDequeue(q0, dst, now, Waiting.Fresh(q0, now), taken, queue.queue, entry);
      while entry.Some?
        invariant queue.Valid() && queue.clock == now && queue.errors == errors && neighbours.table == live
        invariant Progress(q0, dst, now, queue.queue, taken, entry) && |taken| == |fates|
        invariant recovery ==> read == LastRead(taken, contentOf)
        invariant UpToUnknown(taken, contentOf, recovery, true)
        invariant AllHandled(pos, live, dst, dstPos, own, contentOf, taken, angle, fates)
        decreases |queue.queue|, entry.Some?
      {
        var c := contentOf(entry.value);
        var fate := Lost;
        if recovery {
          read := ReadFrom(read, c.front);
          if c.front != Unknown { fate := Recover(c, read, angle); }
        } else {
          fate := Unchanged(nextHop, own, c);
        }
        OneMoreHandled(pos, live, dst, dstPos, own, contentOf, taken, angle, fates, entry.value, nextHop, recovery, fate);
        taken, fates := taken + [entry.value], fates + [fate];
        ghost var q := queue.queue;
        StillDrained(q0, dst, now, q, taken, entry);
        if recovery && c.front == Unknown {
          EndsHere(q0, dst, now, q, taken);
          return false, taken, fates;
        }
        entry := queue.Dequeue(dst, now);
        AfterDequeue(q0, dst, now, q, taken, queue.queue, entry);
      }
      NothingLeft(q0, dst, now, queue.queue, taken, entry);
      done := true;
    }

    // What the loop for recovery does with a packet of a known type.
    method Recover(c: Content, read: Header, angle: Angle) returns (f: Fate)
      requires c.front != Unknown
      ensures Recovers(pos, c, read, angle, f)
    {
      var posHeader := read.(inRec := 1, rec := pos);
      var o := RecoveryMode(if c.front.Position? then posHeader else NOTHING_READ, angle);
      f := InRecovery(o, c, posHeader);
    }
  }

  // ---- packets that waited ----

  // What is in front of a packet: a position header, another type of this protocol with the position
  // headers put behind it, or no type of it.
  datatype Front = Position(hdr: Header) | Hello(put: seq<Header>) | Unknown

  datatype Content = Content(source: Ip, front: Front)

  datatype Fate = Lost | SentOn(next: Ip, source: Ip, front: Front)

  // 102.102.102.102, which stands for the address of the interface
  const NO_SOURCE: Ip := 0x66666666

  const NOTHING_READ := Header(ORIGIN, ORIGIN, 0, ORIGIN, 0, ORIGIN)

  function Unchanged(next: Ip, own: Ip, c: Content): Fate {
    SentOn(next, if c.source == NO_SOURCE then own else c.source, c.front)
  }

  // The fields of the last position header that the loop has read: another type leaves them as they are.
  function ReadFrom(read: Header, front: Front): Header {
    if front.Position? then front.hdr else read
  }

  function LastRead(taken: seq<QueueEntry>, contentOf: QueueEntry -> Content): Header {
    if taken == [] then NOTHING_READ
    else
      var n := |taken| - 1;
      ReadFrom(LastRead(taken[..n], contentOf), contentOf(taken[n]).front)
  }

  function InRecovery(o: Outcome, c: Content, posHeader: Header): Fate {
    if o.Dropped? then Lost
    else
      SentOn(o.next, c.source, match c.front
        case Position(_) => Position(o.hdr)
        case Hello(put) => Hello([o.hdr, posHeader] + put)
        case Unknown => Unknown)
  }

  // A position header enters recovery here; behind another type go the header last read and an empty
  // one; a packet of no known type is dropped.
  ghost predicate Recovers(pos: Place, c: Content, read: Header, angle: Angle, f: Fate) {
    if c.front == Unknown then f == Lost
    else
      var posHeader := read.(inRec := 1, rec := pos);
      exists o :: Perimeter(pos, if c.front.Position? then posHeader else NOTHING_READ, angle, o) && f == InRecovery(o, c, posHeader)
  }

  // A packet goes on as it is to dst or to the greedy choice, or into recovery.
  ghost predicate Handled(pos: Place, live: seq<Entry>, dst: Ip, dstPos: Place, own: Ip, c: Content, read: Header, angle: Angle, f: Fate) {
    if IsNeighbour(live, dst) then f == Unchanged(dst, own, c)
    else
      exists next :: IsBest(live, dstPos, pos, next) &&
        (next != 0 ==> f == Unchanged(next, own, c)) && (next == 0 ==> Recovers(pos, c, read, angle, f))
  }

  ghost predicate AllHandled(pos: Place, live: seq<Entry>, dst: Ip, dstPos: Place, own: Ip, contentOf: QueueEntry -> Content,
                             taken: seq<QueueEntry>, angle: Angle, fates: seq<Fate>)
  {
    |taken| == |fates| && forall k :: 0 <= k < |taken| ==>
      Handled(pos, live, dst, dstPos, own, contentOf(taken[k]), LastRead(taken[..k + 1], contentOf), angle, fates[k])
  }

  // There is no next hop.
  ghost predicate FallsBack(pos: Place, live: seq<Entry>, dst: Ip, dstPos: Place) {
    !IsNeighbour(live, dst) && IsBest(live, dstPos, pos, 0)
  }

  // In recovery the loop ends at the first packet of no known type.
  ghost predicate UpToUnknown(taken: seq<QueueEntry>, contentOf: QueueEntry -> Content, recovery: bool, done: bool) {
    && (!done ==> recovery && taken != [] && contentOf(taken[|taken| - 1]).front == Unknown)
    && (recovery ==> forall k :: 0 <= k < |taken| - (if done then 0 else 1) ==> contentOf(taken[k]).front != Unknown)
  }

  // The packets taken are the first of those that waited for dst, all of them when it is done; the
  // others stay, in order.
  ghost predicate TakenInTurn(q0: seq<QueueEntry>, dst: Ip, now: int, q: seq<QueueEntry>, taken: seq<QueueEntry>, done: bool) {
    && Waiting.Drained(q0, dst, now, q, taken)
    && (done ==> taken == Leaving(Waiting.Fresh(q0, now), Waiting.For(dst)) && q == Remaining(Waiting.Fresh(q0, now), Waiting.For(dst)))
  }

  // For a packet with a position header that is the choice of a source.
  lemma HandledIsOriginated(pos: Place, live: seq<Entry>, dst: Ip, dstPos: Place, own: Ip, c: Content, angle: Angle, f: Fate)
    requires c.front.Position? && Handled(pos, live, dst, dstPos, own, c, c.front.hdr, angle, f)
    ensures f.SentOn? ==> f.front.Position?
    ensures Originates(pos, live, dst, dstPos, c.front.hdr, angle, if f.Lost? then Dropped else Sent(f.next, f.front.hdr))
  {
    hide IsBest;
  }

  // What becomes of a packet that waited: without a next hop found greedily it enters recovery, asks
  // from the position of its last hop, and is sent with the position of the node; a packet of another
  // type gets the header last read and an empty one in front.
  lemma FateOf(pos: Place, live: seq<Entry>, dst: Ip, dstPos: Place, own: Ip, contentOf: QueueEntry -> Content,
               taken: seq<QueueEntry>, angle: Angle, fates: seq<Fate>, k: nat)
    requires AllHandled(pos, live, dst, dstPos, own, contentOf, taken, angle, fates) && k < |taken|
    requires forall i :: 0 <= i < |live| ==> live[i].id != 0
    ensures var c := contentOf(taken[k]);
      if IsNeighbour(live, dst) || exists i :: 0 <= i < |live| && Away(live[i].pos, dstPos) < Away(pos, dstPos) then
        && fates[k].SentOn? && fates[k].front == c.front && fates[k].source == (if c.source == 0x66666666 then own else c.source)
        && if IsNeighbour(live, dst) then fates[k].next == dst else IsBest(live, dstPos, pos, fates[k].next)
      else match c.front
        case Unknown => fates[k] == Lost
        case Position(h) =>
          var next := angle(h.last, pos);
          fates[k] == if next == 0 then Lost else SentOn(next, c.source, Position(Header(h.src, h.dst, h.updated, pos, 1, pos)))
        case Hello(put) =>
          var next, h := angle(Place(0.0, 0.0), pos), LastRead(taken[..k], contentOf);
          fates[k] == if next == 0 then Lost
            else
              SentOn(next, c.source, Hello([Header(ORIGIN, ORIGIN, 0, ORIGIN, 1, pos), Header(h.src, h.dst, h.updated, pos, 1, h.last)] + put))
  {
    hide Away;
    assert taken[..k + 1][..k] == taken[..k];
    var next: Ip;
    if !IsNeighbour(live, dst) {
      next :| IsBest(live, dstPos, pos, next)
        && (next != 0 ==> fates[k] == Unchanged(next, own, contentOf(taken[k])))
        && (next == 0 ==> Recovers(pos, contentOf(taken[k]), LastRead(taken[..k + 1], contentOf), angle, fates[k]));
      BestIsUnique(live, dstPos, pos, next, next);
    }
  }

  // The header last read is that of the last packet with one.
  lemma {:induction false} LastReadIs(taken: seq<QueueEntry>, contentOf: QueueEntry -> Content, i: nat)
    requires i < |taken| && contentOf(taken[i]).front.Position?
    requires forall j :: i < j < |taken| ==> !contentOf(taken[j]).front.Position?
    ensures LastRead(taken, contentOf) == contentOf(taken[i]).front.hdr
  {
    if i < |taken| - 1 { LastReadIs(taken[..|taken| - 1], contentOf, i); }
  }

  lemma {:induction false} NothingReadYet(taken: seq<QueueEntry>, contentOf: QueueEntry -> Content)
    requires forall j :: 0 <= j < |taken| ==> !contentOf(taken[j]).front.Position?
    ensures LastRead(taken, contentOf) == Header(ORIGIN, ORIGIN, 0, ORIGIN, 0, ORIGIN)
  {
    if taken != [] { NothingReadYet(taken[..|taken| - 1], contentOf); }
  }

  lemma FallsBackIs(pos: Place, live: seq<Entry>, dst: Ip, dstPos: Place, nextHop: Ip, recovery: bool)
    requires NextHopIs(pos, live, dst, dstPos, nextHop, recovery)
    ensures recovery == FallsBack(pos, live, dst, dstPos)
  {
    hide IsBest;
    if !IsNeighbour(live, dst) && IsBest(live, dstPos, pos, 0) { BestIsUnique(live, dstPos, pos, nextHop, 0); }
  }

  lemma NoneYet(pos: Place, live: seq<Entry>, dst: Ip, dstPos: Place, own: Ip, contentOf: QueueEntry -> Content, recovery: bool, angle: Angle)
    ensures UpToUnknown([], contentOf, recovery, true) && LastRead([], contentOf) == NOTHING_READ
    ensures AllHandled(pos, live, dst, dstPos, own, contentOf, [], angle, [])
  {
  }

  // Where packets for dst go: to dst itself, to the greedy choice, or into recovery.
  ghost predicate NextHopIs(pos: Place, live: seq<Entry>, dst: Ip, dstPos: Place, nextHop: Ip, recovery: bool) {
    if IsNeighbour(live, dst) then nextHop == dst && !recovery
    else IsBest(live, dstPos, pos, nextHop) && (recovery <==> nextHop == 0)
  }

  lemma OneMoreHandled(pos: Place, live: seq<Entry>, dst: Ip, dstPos: Place, own: Ip, contentOf: QueueEntry -> Content,
                       taken: seq<QueueEntry>, angle: Angle, fates: seq<Fate>, e: QueueEntry, nextHop: Ip, recovery: bool, f: Fate)
    requires AllHandled(pos, live, dst, dstPos, own, contentOf, taken, angle, fates) && UpToUnknown(taken, contentOf, recovery, true)
    requires NextHopIs(pos, live, dst, dstPos, nextHop, recovery)
    requires recovery && contentOf(e).front != Unknown ==>
      Recovers(pos, contentOf(e), ReadFrom(LastRead(taken, contentOf), contentOf(e).front), angle, f)
    requires recovery && contentOf(e).front == Unknown ==> f == Lost
    requires !recovery ==> f == Unchanged(nextHop, own, contentOf(e))
    ensures AllHandled(pos, live, dst, dstPos, own, contentOf, taken + [e], angle, fates + [f])
    ensures UpToUnknown(taken + [e], contentOf, recovery, !(recovery && contentOf(e).front == Unknown))
    ensures LastRead(taken + [e], contentOf) == ReadFrom(LastRead(taken, contentOf), contentOf(e).front)
  {
    hide IsBest, InRecovery;
    var taken', n := taken + [e], |taken|;
    assert taken'[..n] == taken && taken'[..n + 1] == taken' && taken'[n] == e;
    assert Handled(pos, live, dst, dstPos, own, contentOf(e), LastRead(taken', contentOf), angle, f);
    assert forall k :: 0 <= k < n ==> taken'[..k + 1] == taken[..k + 1] && taken'[k] == taken[k];
  }

  lemma EndsHere(q0: seq<QueueEntry>, dst: Ip, now: int, q: seq<QueueEntry>, taken: seq<QueueEntry>)
    requires Waiting.Drained(q0, dst, now, q, taken)
    ensures TakenInTurn(q0, dst, now, q, taken, false)
  {
  }

  // After a Dequeue: its entry comes next, or all are taken.
  ghost predicate Progress(q0: seq<QueueEntry>, dst: Ip, now: int, q: seq<QueueEntry>, taken: seq<QueueEntry>, entry: Option<QueueEntry>) {
    if entry.Some? then Waiting.Drained(q0, dst, now, q, taken + [entry.value])
    else TakenInTurn(q0, dst, now, q, taken, true)
  }

  lemma AfterDequeue(q0: seq<QueueEntry>, dst: Ip, now: int, q: seq<QueueEntry>, taken: seq<QueueEntry>,
                     q': seq<QueueEntry>, entry: Option<QueueEntry>)
    requires Waiting.Drained(q0, dst, now, q, taken)
    requires entry.None? <==> forall i :: 0 <= i < |q| ==> q[i].dst != dst
    requires entry.None? ==> q' == q
    requires entry.Some? ==> exists i :: 0 <= i < |q| && Waiting.TakesFirst(q, i, dst, q', entry.value)
    ensures Progress(q0, dst, now, q', taken, entry) && (entry.Some? ==> |q'| < |q|)
  {
    hide Waiting.Drained, Leaving, Remaining, Waiting.Fresh, Waiting.For;
    if entry.None? {
      Waiting.AllDrained(q0, dst, now, q, taken);
    } else {
      var i: nat :| i < |q| && Waiting.TakesFirst(q, i, dst, q', entry.value);
      Waiting.OneMoreDrained(q0, dst, now, q, taken, i, q', entry.value);
    }
  }

  lemma StillDrained(q0: seq<QueueEntry>, dst: Ip, now: int, q: seq<QueueEntry>, taken: seq<QueueEntry>, entry: Option<QueueEntry>)
    requires entry.Some? && taken != [] && taken[|taken| - 1] == entry.value
    requires Progress(q0, dst, now, q, taken[..|taken| - 1], entry)
    ensures Waiting.Drained(q0, dst, now, q, taken) && Waiting.Fresh(q, now) == q && Waiting.Outdated(q, now) == []
  {
    hide Leaving, Remaining, Waiting.Fresh, Waiting.Outdated, Waiting.For;
    assert taken[..|taken| - 1] + [entry.value] == taken;
  }

  lemma NothingLeft(q0: seq<QueueEntry>, dst: Ip, now: int, q: seq<QueueEntry>, taken: seq<QueueEntry>, entry: Option<QueueEntry>)
    requires Progress(q0, dst, now, q, taken, entry) && entry.None?
    ensures TakenInTurn(q0, dst, now, q, taken, true)
  {
  }

  lemma SameNeighbours(t: seq<Entry>, t': seq<Entry>, dst: Ip)
    requires forall e :: e in t' <==> e in t
    ensures IsNeighbour(t, dst) <==> IsNeighbour(t', dst)
  {
    FewerNeighbours(t, t', dst);
    FewerNeighbours(t', t, dst);
  }

  lemma FewerNeighbours(t: seq<Entry>, t': seq<Entry>, dst: Ip)
    requires forall e :: e in t' ==> e in t
    ensures IsNeighbour(t', dst) ==> IsNeighbour(t, dst)
  {
    if i :| 0 <= i < |t'| && t'[i].id == dst { assert t'[i] in t; }
  }

  // ---- a packet on its way through a static network ----

  // A packet at a node: what the node's table holds then, and what comes of it.
  datatype Visit = Visit(at: Ip, hdr: Header, live: seq<Entry>, fix: Fix, angle: Angle, out: Outcome)

  // Positions do not change; net gives them.
  type Network = Ip -> Place

  // Tables may hold any of the nodes, at their true positions.
  ghost predicate Truthful(live: seq<Entry>, net: Network) {
    forall i :: 0 <= i < |live| ==> live[i].id != 0 && live[i].pos == net(live[i].id)
  }

  // AddHeaders at the source
  function FreshHeader(pos: Place, fix: Fix): Header {
    Header(pos, fix.pos, fix.time, ORIGIN, 0, pos)
  }

  ghost predicate Decided(v: Visit, first: bool, net: Network, dst: Ip) {
    if first then
      v.hdr == FreshHeader(net(v.at), v.fix) && Originates(net(v.at), v.live, dst, v.fix.pos, v.hdr, v.angle, v.out)
    else Forwards(net(v.at), v.live, dst, v.fix, v.hdr, v.angle, v.out)
  }

  ghost predicate Arrives(run: seq<Visit>, k: nat)
    requires k + 1 < |run|
  {
    run[k].out == Sent(run[k + 1].at, run[k + 1].hdr)
  }

  // The nodes that a packet for dst passes, dst itself excepted: there it is delivered.
  ghost predicate Run(run: seq<Visit>, net: Network, dst: Ip) {
    && (forall k :: 0 <= k < |run| ==>
          run[k].at != dst && Truthful(run[k].live, net) && run[k].fix.pos == net(dst) && Decided(run[k], k == 0, net, dst))
    && (forall k: nat {:trigger Arrives(run, k)} :: k + 1 < |run| ==> Arrives(run, k))
  }

  // The potential: how far from the destination recovery began, or the packet is.
  ghost function Potential(at: Ip, hdr: Header, net: Network, dst: Ip): real {
    Away(if hdr.inRec != 0 then hdr.rec else net(at), net(dst))
  }

  // Headers name the true destination and are in recovery or not.
  ghost predicate Sound(hdr: Header, net: Network, dst: Ip) {
    hdr.dst == net(dst) && hdr.inRec <= 1
  }

  // At such a visit the node sends the packet to dst, forwards it greedily or has it enter recovery.
  ghost predicate Commits(v: Visit, net: Network) {
    !StaysInRecovery(net(v.at), v.hdr)
  }

  // One visit: the potential does not rise; it stays as it is when the packet follows a perimeter
  // or enters recovery where it is, and falls when it leaves recovery or goes on greedily.
  lemma PotentialFalls(v: Visit, first: bool, net: Network, dst: Ip)
    requires Sound(v.hdr, net, dst) && Truthful(v.live, net) && v.fix.pos == net(dst)
    requires Decided(v, first, net, dst) && v.out.Sent?
    ensures Sound(v.out.hdr, net, dst)
    ensures var before, after := Potential(v.at, v.hdr, net, dst), Potential(v.out.next, v.out.hdr, net, dst);
      && after <= before
      && (LeavesRecovery(net(v.at), v.hdr) ==> after < before)
      && (v.out.next != dst && v.out.hdr.inRec == 0 ==> after < before)
      && (!Commits(v, net) ==> after == before && v.out.hdr.inRec == 1)
      && (Commits(v, net) ==> after < Away(net(v.at), net(dst)) || v.out.next == dst
                              || (after == Away(net(v.at), net(dst)) && v.out.hdr.inRec == 1))
  {
    hide Away;
    AwayIsLeast(net(v.at), net(dst));
    AwayIsLeast(v.hdr.rec, net(dst));
  }

  lemma AwayIsLeast(p: Place, q: Place)
    ensures Away(q, q) == 0.0 <= Away(p, q)
  {
  }

  // ---- whole runs ----

  // Every header on the way is sound, and the potential never rises.
  lemma {:induction false} NeverRises(run: seq<Visit>, net: Network, dst: Ip, j: nat, k: nat)
    requires Run(run, net, dst) && j <= k < |run|
    ensures Sound(run[k].hdr, net, dst)
    ensures Potential(run[k].at, run[k].hdr, net, dst) <= Potential(run[j].at, run[j].hdr, net, dst)
    decreases k
  {
    hide Away, Forwards, Originates, Potential;
    if k > 0 {
      NeverRises(run, net, dst, if j < k then j else k - 1, k - 1);
      assert Arrives(run, k - 1);
      PotentialFalls(run[k - 1], k - 1 == 0, net, dst);
    }
  }

  // After a node has committed a packet, the packet is closer to its destination than the node
  // or in a recovery that began no farther away.
  ghost predicate Beyond(at: Ip, v: Visit, net: Network, dst: Ip) {
    var level := Away(net(at), net(dst));
    var now := Potential(v.at, v.hdr, net, dst);
    now < level || (now == level && v.hdr.inRec == 1)
  }

  lemma {:induction false} StaysBeyond(run: seq<Visit>, net: Network, dst: Ip, j: nat, k: nat)
    requires Run(run, net, dst) && j < k < |run| && Commits(run[j], net)
    ensures Beyond(run[j].at, run[k], net, dst)
    decreases k
  {
    hide Away, Forwards, Originates, Potential, Commits;
    NeverRises(run, net, dst, j, k - 1);
    assert Arrives(run, k - 1) && Decided(run[k - 1], k - 1 == 0, net, dst);
    PotentialFalls(run[k - 1], k - 1 == 0, net, dst);
    if j < k - 1 {
      StaysBeyond(run, net, dst, j, k - 1);
      if Commits(run[k - 1], net) { RecoveryExits(run[k - 1], net, dst); }
    }
  }

  // A commitment by a node that got the packet in recovery is an exit from recovery.
  lemma RecoveryExits(v: Visit, net: Network, dst: Ip)
    requires Sound(v.hdr, net, dst) && Commits(v, net)
    ensures v.hdr.inRec == 1 ==> LeavesRecovery(net(v.at), v.hdr)
    ensures v.hdr.inRec == 1 ==> Away(net(v.at), net(dst)) < Potential(v.at, v.hdr, net, dst)
    ensures v.hdr.inRec == 0 ==> Away(net(v.at), net(dst)) == Potential(v.at, v.hdr, net, dst)
  {
    hide Away;
  }

  // No node forwards a packet greedily or has it enter recovery a second time.
  lemma OneCommitPerNode(run: seq<Visit>, net: Network, dst: Ip, j: nat, k: nat)
    requires Run(run, net, dst) && j < |run| && k < |run| && run[j].at == run[k].at
    requires Commits(run[j], net) && Commits(run[k], net)
    ensures j == k
  {
    hide Away, Forwards, Originates, Potential, Commits, Run;
    if j < k {
      StaysBeyond(run, net, dst, j, k);
      NeverRises(run, net, dst, k, k);
      RecoveryExits(run[k], net, dst);
    } else if k < j {
      StaysBeyond(run, net, dst, k, j);
      NeverRises(run, net, dst, j, j);
      RecoveryExits(run[j], net, dst);
    }
  }

  ghost function Commitments(run: seq<Visit>, net: Network): set<nat> {
    set k: nat | k < |run| && Commits(run[k], net)
  }

  // So a packet is committed at most once for each node there is: whatever the tables do, a run
  // that goes on longer follows perimeters only.
  lemma {:induction false} CommitmentsBounded(run: seq<Visit>, net: Network, dst: Ip, nodes: set<Ip>, committed: set<nat>)
    requires Run(run, net, dst) && committed <= Commitments(run, net)
    requires forall k :: k in committed ==> run[k].at in nodes
    ensures |committed| <= |nodes|
    decreases |committed|
  {
    hide Run, Commits;
    if k :| k in committed {
      forall j | j in committed - {k}
        ensures run[j].at in nodes - {run[k].at}
      {
        if run[j].at == run[k].at { OneCommitPerNode(run, net, dst, j, k); }
      }
      CommitmentsBounded(run, net, dst, nodes - {run[k].at}, committed - {k});
    }
  }

  // ---- what the packet carries ----

  // The header has been written anew at this visit.
  predicate Rebuilt(run: seq<Visit>, j: nat)
    requires j < |run|
  {
    j == 0 || (run[j].out.Sent? && run[j].out.hdr.inRec == 0)
  }

  // The latest time that the location service has given at such a visit.
  ghost predicate IsLatest(run: seq<Visit>, k: nat, time: nat)
    requires k < |run|
  {
    && (exists j: nat :: j <= k && Rebuilt(run, j) && run[j].fix.time == time)
    && (forall j: nat :: j <= k && Rebuilt(run, j) ==> run[j].fix.time <= time)
  }

  // Visit j is the last one up to k that has committed the packet.
  ghost predicate LastCommit(run: seq<Visit>, net: Network, j: nat, k: nat)
    requires j <= k < |run|
  {
    Commits(run[j], net) && forall i :: j < i <= k ==> !Commits(run[i], net)
  }

  // When visit k sends it on: the source, the destination, the position of the node that sends it, the
  // latest time heard, and in recovery the position of the node that has it enter recovery.
  ghost predicate Carries(run: seq<Visit>, net: Network, dst: Ip, k: nat)
    requires k < |run| && run[k].out.Sent?
  {
    var hdr := run[k].out.hdr;
    && hdr.src == net(run[0].at) && hdr.dst == net(dst) && hdr.last == net(run[k].at) && IsLatest(run, k, hdr.updated)
    && hdr.inRec <= 1 && (hdr.inRec == 0 ==> hdr.rec == ORIGIN)
    && (hdr.inRec == 1 ==> exists j: nat :: j <= k && LastCommit(run, net, j, k) && hdr.rec == net(run[j].at))
  }

  lemma {:induction false} AlwaysCarries(run: seq<Visit>, net: Network, dst: Ip, k: nat)
    requires Run(run, net, dst) && k < |run| && run[k].out.Sent?
    ensures Carries(run, net, dst, k)
  {
    if k == 0 {
      SourceCarries(run, net, dst);
    } else {
      assert Arrives(run, k - 1);
      AlwaysCarries(run, net, dst, k - 1);
      hide Carries;
      NodeCarries(run, net, dst, k);
    }
  }

  lemma SourceCarries(run: seq<Visit>, net: Network, dst: Ip)
    requires Run(run, net, dst) && |run| > 0 && run[0].out.Sent?
    ensures Carries(run, net, dst, 0)
  {
    hide IsBest, Away;
    assert Decided(run[0], true, net, dst);
    assert Rebuilt(run, 0) && LastCommit(run, net, 0, 0);
  }

  lemma NodeCarries(run: seq<Visit>, net: Network, dst: Ip, k: nat)
    requires Run(run, net, dst) && 0 < k < |run| && run[k].out.Sent?
    requires run[k - 1].out == Sent(run[k].at, run[k].hdr) && Carries(run, net, dst, k - 1)
    ensures Carries(run, net, dst, k)
  {
    var v := run[k];
    assert Decided(v, false, net, dst) && v.fix.pos == net(dst);
    hide Run, IsLatest, LastCommit, IsBest, LeavesRecovery;
    LatestGoesOn(run, k, v.hdr.updated);
    if StaysInRecovery(net(v.at), v.hdr) {
      var j: nat :| j <= k - 1 && LastCommit(run, net, j, k - 1) && v.hdr.rec == net(run[j].at);
      CommitStays(run, net, j, k);
    } else {
      CommitsNow(run, net, k);
    }
  }

  lemma LatestGoesOn(run: seq<Visit>, k: nat, time: nat)
    requires 0 < k < |run| && run[k].out.Sent? && IsLatest(run, k - 1, time)
    ensures run[k].out.hdr.inRec == 0 ==> IsLatest(run, k, if run[k].fix.time > time then run[k].fix.time else time)
    ensures run[k].out.hdr.inRec != 0 ==> IsLatest(run, k, time)
  {
    var j: nat :| j <= k - 1 && Rebuilt(run, j) && run[j].fix.time == time;
    if run[k].out.hdr.inRec == 0 { assert Rebuilt(run, k); }
  }

  lemma CommitStays(run: seq<Visit>, net: Network, j: nat, k: nat)
    requires j < k < |run| && LastCommit(run, net, j, k - 1) && !Commits(run[k], net)
    ensures LastCommit(run, net, j, k)
  {
    hide Commits;
  }

  lemma CommitsNow(run: seq<Visit>, net: Network, k: nat)
    requires k < |run| && Commits(run[k], net)
    ensures LastCommit(run, net, k, k)
  {
  }

  // The position that the neighbour on the perimeter is looked up from: the node the packet came
  // from; where it enters recovery, the destination; at the source, the source.
  ghost function LookedFrom(run: seq<Visit>, net: Network, dst: Ip, k: nat): Place
    requires k < |run|
  {
    if k == 0 then net(run[0].at) else if Commits(run[k], net) then net(dst) else net(run[k - 1].at)
  }

  // Along the perimeter the next hop is the one found from there, and the packet is dropped when
  // there is none.
  lemma OnThePerimeter(run: seq<Visit>, net: Network, dst: Ip, k: nat)
    requires Run(run, net, dst) && k < |run| && (run[k].out.Dropped? || run[k].out.hdr.inRec == 1)
    ensures var v := run[k]; var next := v.angle(LookedFrom(run, net, dst, k), net(v.at));
      && (v.out.Dropped? <==> next == 0)
      && (v.out.Sent? ==> v.out.next == next)
  {
    assert Decided(run[k], k == 0, net, dst) && run[k].fix.pos == net(dst);
    hide Run, Away, Decided, Commits, Carries;
    if k > 0 { PreviousHop(run, net, dst, k); }
    PerimeterVisit(run[k], k == 0, net, dst);
  }

  lemma PerimeterVisit(v: Visit, first: bool, net: Network, dst: Ip)
    requires Decided(v, first, net, dst) && v.fix.pos == net(dst) && (v.out.Dropped? || v.out.hdr.inRec == 1)
    requires !first ==> v.hdr.dst == net(dst)
    ensures var next := v.angle(if first then net(v.at) else if Commits(v, net) then net(dst) else v.hdr.last, net(v.at));
      (v.out.Dropped? <==> next == 0) && (v.out.Sent? ==> v.out.next == next)
  {
    hide IsBest, LeavesRecovery;
  }

  lemma PreviousHop(run: seq<Visit>, net: Network, dst: Ip, k: nat)
    requires Run(run, net, dst) && 0 < k < |run|
    ensures run[k].hdr.last == net(run[k - 1].at) && run[k].hdr.src == net(run[0].at) && run[k].hdr.dst == net(dst)
  {
    assert Arrives(run, k - 1);
    hide Run;
    AlwaysCarries(run, net, dst, k - 1);
  }

  // Recovery ends at a node that is closer to the destination than the node where it began, and at
  // no other.
  lemma RecoveryEnds(run: seq<Visit>, net: Network, dst: Ip, k: nat)
    requires Run(run, net, dst) && 0 < k < |run| && run[k].hdr.inRec == 1
    ensures exists j: nat ::
      && j < k && LastCommit(run, net, j, k - 1)
      && (Commits(run[k], net) <==> Away(net(run[k].at), net(dst)) < Away(net(run[j].at), net(dst)))
  {
    assert Arrives(run, k - 1);
    hide Run, Away;
    AlwaysCarries(run, net, dst, k - 1);
    var j: nat :| j <= k - 1 && LastCommit(run, net, j, k - 1) && run[k].hdr.rec == net(run[j].at);
  }

  // A node that commits the packet sends it to the destination when that is a neighbour, else to the
  // closest neighbour if that is closer than itself, and has it enter recovery if none is.
  lemma CommitGoesWhere(run: seq<Visit>, net: Network, dst: Ip, k: nat)
    requires Run(run, net, dst) && k < |run| && Commits(run[k], net)
    ensures var v := run[k]; var here := Away(net(v.at), net(dst));
      && ((exists i :: 0 <= i < |v.live| && v.live[i].id == dst) ==> v.out.Sent? && v.out.next == dst && v.out.hdr.inRec == 0)
      && ((forall i :: 0 <= i < |v.live| ==> v.live[i].id != dst && here <= Away(v.live[i].pos, net(dst))) ==>
            v.out.Dropped? || (v.out.hdr.inRec == 1 && v.out.hdr.rec == net(v.at)))
      && ((forall i :: 0 <= i < |v.live| ==> v.live[i].id != dst)
          && (exists i :: 0 <= i < |v.live| && Away(v.live[i].pos, net(dst)) < here) ==>
            && v.out.Sent? && v.out.hdr.inRec == 0 && Away(net(v.out.next), net(dst)) < here
            && forall i :: 0 <= i < |v.live| ==> Away(net(v.out.next), net(dst)) <= Away(v.live[i].pos, net(dst)))
  {
    if k > 0 {
      assert Arrives(run, k - 1);
      AlwaysCarries(run, net, dst, k - 1);
    }
    assert Decided(run[k], k == 0, net, dst) && Truthful(run[k].live, net);
    hide Run, Away, Carries, IsLatest, LastCommit;
  }
}
