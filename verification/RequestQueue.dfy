/** gpsr-rqueue.cc: packets that wait for the position of their destination. */
module RequestQueue {
  import opened Options
  import opened RequestLedger

  // IsExpired
  predicate Expired(e: QueueEntry, now: int) {
    e.expire - now < 0
  }

  function ExpiredAt(now: int): QueueEntry -> bool {
    e => Expired(e, now)
  }

  // IsEqual
  function For(dst: nat): QueueEntry -> bool {
    (e: QueueEntry) => e.dst == dst
  }

  predicate Matches(e: QueueEntry, uid: int, dst: nat) {
    e.uid == uid && e.dst == dst
  }

  // The queue after a purge.
  function Fresh(q: seq<QueueEntry>, now: int): seq<QueueEntry> {
    Remaining(q, ExpiredAt(now))
  }

  function Outdated(q: seq<QueueEntry>, now: int): seq<QueueEntry> {
    Leaving(q, ExpiredAt(now))
  }

  // Entry i, the first for the destination, is taken out.
  ghost predicate TakesFirst(q: seq<QueueEntry>, i: nat, dst: nat, q': seq<QueueEntry>, e: QueueEntry)
    requires i < |q|
  {
    q[i] == e && e.dst == dst && (forall k :: 0 <= k < i ==> q[k].dst != dst) && q' == q[..i] + q[i + 1..]
  }

  // One more packet is in the books as handed out.
  ghost predicate HandedOut(l: Ledger, handed: seq<nat>, e: QueueEntry) {
    && |l.handed| == |handed| + 1 && handed <= l.handed
    && l.handed[|handed|] < |l.accepted| && l.accepted[l.handed[|handed|]] == e
  }

  // Why a packet was reported.
  datatype Reason = Late(at: int) | Unwanted

  // Packets expire a fixed time after they were accepted, and those reported as late were.
  ghost predicate InTime(l: Ledger, times: seq<int>, reasons: seq<Reason>, timeout: int, clock: int)
    requires Known(l)
  {
    && |times| == |l.accepted| && |reasons| == |l.dropped|
    && (forall i :: 0 <= i < |times| ==> l.accepted[i].expire == times[i] + timeout && times[i] <= clock)
    && (forall i :: 0 <= i < |reasons| && reasons[i].Late? ==> times[l.dropped[i]] + timeout < reasons[i].at <= clock)
  }

  class RequestQueue {
    const maxLen: nat
    const timeout: int
    var queue: seq<QueueEntry>
    // what the error callbacks were called with
    var errors: seq<QueueEntry>
    ghost var ledger: Ledger
    // when packets were accepted, and why those reported were
    ghost var times: seq<int>
    ghost var reasons: seq<Reason>
    ghost var clock: int

    ghost predicate Valid()
      reads this
    {
      && maxLen >= 1 && |queue| <= maxLen && Kept(ledger)
      && queue == Queue(ledger) && errors == Packets(ledger, ledger.dropped)
      && InTime(ledger, times, reasons, timeout, clock)
    }

    constructor (maxLen: nat, timeout: int, ghost now: int)
      requires maxLen >= 1
      ensures Valid() && this.maxLen == maxLen && this.timeout == timeout && clock == now
      ensures queue == [] && errors == [] && ledger == Ledger([], [], [], [])
    {
      this.maxLen, this.timeout := maxLen, timeout;
      queue, errors, ledger, clock := [], [], Ledger([], [], [], []), now;
      times, reasons := [], [];
    }

    // The first pass of Purge and DropPacketWithDst over the queue, which reports what goes ...
    method Report(gone: QueueEntry -> bool)
      modifies this`errors
      ensures errors == old(errors) + Leaving(queue, gone)
    {
      ghost var reported := NothingLeaves(queue, gone);
      hide Leaving;
      var i := 0;
      while i < |queue|
        invariant 0 <= i <= |queue| && reported == Leaving(queue[..i], gone) && errors == old(errors) + reported
      {
        reported := NextLeaves(queue, i, gone, reported);
        if gone(queue[i]) { Drop(queue[i]); }
        i := i + 1;
      }
      assert queue[..i] == queue;
    }

    // ... and the second, which takes it out.
    method DropAll(gone: QueueEntry -> bool, ghost why: Reason, ghost now: int)
      requires Valid() && clock <= now
      requires why.Late? ==> why.at == now && forall e :: e in queue && gone(e) ==> e.expire < now
      modifies this
      ensures Valid() && clock == now
      ensures queue == Remaining(old(queue), gone) && errors == old(errors) + Leaving(old(queue), gone)
      ensures ledger.accepted == old(ledger.accepted) && ledger.handed == old(ledger.handed) && times == old(times)
      ensures reasons == old(reasons) + seq(|Leaving(old(queue), gone)|, _ => why)
    {
      hide Kept, Known, Queue, Packets, Remaining, Leaving, InTime;
      ghost var after := SweepAll(ledger, queue, gone);
      var rest := Remaining(queue, gone);
      ghost var out := Leaving(queue, gone);
      StaysInTime(ledger, after, times, reasons, timeout, clock, why, now, out);
      Report(gone);
      queue, ledger := rest, after;
      reasons, clock := reasons + seq(|out|, _ => why), now;
    }

    method Drop(e: QueueEntry)
      modifies this`errors
      ensures errors == old(errors) + [e]
    {
      errors := errors + [e];
    }

    // Purge takes the first n entries, those past their time, and nothing else.
    method Purge(now: int) returns (ghost n: nat)
      requires Valid() && clock <= now
      modifies this
      ensures Valid() && clock == now && queue == Fresh(old(queue), now) && errors == old(errors) + Outdated(old(queue), now)
      ensures n <= |old(queue)| && queue == old(queue)[n..] && errors == old(errors) + old(queue)[..n]
      ensures (forall i :: 0 <= i < n ==> old(queue)[i].expire < now) && (forall i :: 0 <= i < |queue| ==> queue[i].expire >= now)
      ensures ledger.accepted == old(ledger.accepted) && ledger.handed == old(ledger.handed) && times == old(times)
      ensures reasons == old(reasons) + seq(n, _ => Late(now))
    {
      hide Kept, Known, Queue, Packets, InTime, Remaining, Leaving;
      QueueInOrder(ledger);
      n := LateFirst(queue, now);
      DropAll(ExpiredAt(now), Late(now), now);
    }

    method GetSize(now: int) returns (size: nat)
      requires Valid() && clock <= now
      modifies this
      ensures Valid() && clock == now && queue == Fresh(old(queue), now) && size == |queue| <= maxLen
      ensures forall e :: e in queue <==> e in old(queue) && e.expire >= now
      ensures ledger.accepted == old(ledger.accepted) && ledger.handed == old(ledger.handed) && times == old(times)
    {
      hide Kept, Known, Fresh, Outdated;
      ghost var n := Purge(now);
      KeptBehind(old(queue), n, now);
      size := |queue|;
    }

    // Enqueue: refused when the packet waits for the same destination already; the oldest entry
    // makes room when the queue is full.
    method Enqueue(uid: int, dst: nat, now: int) returns (ok: bool)
      requires Valid() && clock <= now
      modifies this
      ensures Valid() && clock == now
      ensures var q, e := Fresh(old(queue), now), QueueEntry(uid, dst, timeout + now);
        && ok == (forall i :: 0 <= i < |q| ==> !Matches(q[i], uid, dst))
        && queue == (if !ok then q else if |q| == maxLen then q[1..] + [e] else q + [e])
        && errors == old(errors) + Outdated(old(queue), now) + (if ok && |q| == maxLen then [q[0]] else [])
        && ledger.accepted == old(ledger.accepted) + (if ok then [e] else [])
        && times == old(times) + (if ok then [now] else [])
      ensures ledger.handed == old(ledger.handed)
      // a packet waits for one destination once, and those past their time do not count
      ensures ok <==> forall e :: e in old(queue) && e.expire >= now ==> e.uid != uid || e.dst != dst
      ensures forall e :: e in queue ==> e.expire >= now || (ok && e == QueueEntry(uid, dst, timeout + now))
    {
      hide Kept, Known, Queue, Packets, Fresh, Outdated, InTime;
      ghost var n := Purge(now);
      KeptBehind(old(queue), n, now);
      var i := 0;
      while i < |queue|
        invariant 0 <= i <= |queue| && forall k :: 0 <= k < i ==> !Matches(queue[k], uid, dst)
      {
        if queue[i].uid == uid && queue[i].dst == dst { return false; }
        i := i + 1;
      }
      MatchesIs(queue, uid, dst);
      Push(QueueEntry(uid, dst, timeout + now));
      ok := true;
    }

    // The second half of Enqueue.
    method Push(entry: QueueEntry)
      requires Valid() && entry.expire == timeout + clock
      requires forall i :: 0 <= i < |queue| ==> !Matches(queue[i], entry.uid, entry.dst)
      modifies this
      ensures Valid() && clock == old(clock)
      ensures queue == (if |old(queue)| == maxLen then old(queue)[1..] else old(queue)) + [entry]
      ensures errors == old(errors) + if |old(queue)| == maxLen then [old(queue)[0]] else []
      ensures ledger.accepted == old(ledger.accepted) + [entry] && ledger.handed == old(ledger.handed) && times == old(times) + [clock]
    {
      hide Kept, Known, Queue, Packets, InTime;
      if |queue| == maxLen {
        ghost var after := DropFirst(ledger, queue);
        DroppedInTime(ledger, after, times, reasons, timeout, clock);
        Drop(queue[0]);
        queue := queue[1..];
        ledger, reasons := after, reasons + [Unwanted];
      }
      AllByNow(ledger, times, reasons, timeout, clock);
      ghost var after := AcceptEntry(ledger, queue, entry);
      AcceptedInTime(ledger, after, times, reasons, timeout, clock, entry);
      queue := queue + [entry];
      ledger, times := after, times + [clock];
    }

    // DropPacketWithDst
    method DropPacketWithDst(dst: nat, now: int)
      requires Valid() && clock <= now
      modifies this
      ensures Valid() && clock == now
      ensures var q := Fresh(old(queue), now);
        && queue == Remaining(q, For(dst))
        && errors == old(errors) + Outdated(old(queue), now) + Leaving(q, For(dst))
      ensures forall e :: e in queue <==> e in old(queue) && e.expire >= now && e.dst != dst
      ensures ledger.accepted == old(ledger.accepted) && ledger.handed == old(ledger.handed) && times == old(times)
    {
      hide Kept, Known, Fresh, Outdated, InTime, Queue, Packets;
      ghost var n := Purge(now);
      KeptBehind(old(queue), n, now);
      DropAll(For(dst), Unwanted, now);
    }

    // Dequeue: the earliest entry for the destination.
    method Dequeue(dst: nat, now: int) returns (entry: Option<QueueEntry>)
      requires Valid() && clock <= now
      modifies this
      ensures Valid() && clock == now && errors == old(errors) + Outdated(old(queue), now)
      ensures ledger.accepted == old(ledger.accepted) && times == old(times)
      ensures var q := Fresh(old(queue), now);
        && (entry.None? <==> forall i :: 0 <= i < |q| ==> q[i].dst != dst)
        && (entry.None? ==> queue == q && ledger.handed == old(ledger.handed))
        && (entry.Some? ==> exists i :: 0 <= i < |q| && TakesFirst(q, i, dst, queue, entry.value))
      ensures entry.Some? ==> HandedOut(ledger, old(ledger.handed), entry.value)
      // a packet for the destination in its time, as long as there is one
      ensures entry.None? <==> forall e :: e in old(queue) && e.expire >= now ==> e.dst != dst
      ensures entry.Some? ==> entry.value in old(queue) && entry.value.expire >= now && entry.value.dst == dst
      ensures forall e :: e in queue ==> e in old(queue) && e.expire >= now
    {
      hide Kept, Known, Fresh, Outdated, InTime, Queue, Packets;
      ghost var n := Purge(now);
      KeptBehind(old(queue), n, now);
      var i := 0;
      while i < |queue|
        invariant 0 <= i <= |queue| && forall k :: 0 <= k < i ==> queue[k].dst != dst
      {
        if queue[i].dst == dst {
          entry := Some(queue[i]);
          TakeOut(i);
          return;
        }
        i := i + 1;
      }
      entry := None;
    }

    // The entry at position i leaves the queue.
    method TakeOut(i: nat)
      requires Valid() && i < |queue| && forall k :: 0 <= k < i ==> queue[k].dst != queue[i].dst
      modifies this
      ensures Valid() && clock == old(clock) && errors == old(errors) && times == old(times) && ledger.accepted == old(ledger.accepted)
      ensures TakesFirst(old(queue), i, old(queue)[i].dst, queue, old(queue)[i])
      ensures forall e :: e in queue ==> e in old(queue)
      ensures HandedOut(ledger, old(ledger.handed), old(queue)[i])
    {
      hide Kept, Known, Queue, Packets, InTime;
      ghost var after := HandEntry(ledger, queue, i);
      HandedInTime(ledger, after, times, reasons, timeout, clock);
      queue := queue[..i] + queue[i + 1..];
      ledger := after;
    }

    // Find, which does not purge.
    method Find(dst: nat) returns (found: bool)
      ensures found <==> exists i :: 0 <= i < |queue| && queue[i].dst == dst
    {
      var i := 0;
      while i < |queue|
        invariant 0 <= i <= |queue| && forall k :: 0 <= k < i ==> queue[k].dst != dst
      {
        if queue[i].dst == dst { return true; }
        i := i + 1;
      }
      found := false;
    }
  }

  // ---- time ----

  // Along a queue in the order of expiry the late entries come first.
  lemma LateFirst(q: seq<QueueEntry>, now: int) returns (n: nat)
    requires ExpiryInOrder(q)
    ensures n <= |q| && Fresh(q, now) == q[n..] && Outdated(q, now) == q[..n]
    ensures (forall i :: 0 <= i < n ==> q[i].expire < now) && (forall i :: n <= i < |q| ==> q[i].expire >= now)
  {
    n := LateUpTo(q, now);
    hide Remaining, Leaving, ExpiryInOrder;
    Parted(q, n, ExpiredAt(now));
  }

  lemma Parted(q: seq<QueueEntry>, n: nat, gone: QueueEntry -> bool)
    requires n <= |q| && (forall i :: 0 <= i < n ==> gone(q[i])) && (forall i :: n <= i < |q| ==> !gone(q[i]))
    ensures Leaving(q, gone) == q[..n] && Remaining(q, gone) == q[n..]
  {
    hide Remaining, Leaving;
    AllGone(q[..n], gone);
    NoneGone(q[n..], gone);
    KindsConcat(q[..n], q[n..], gone);
    assert q == q[..n] + q[n..];
    Nothing(q[n..]);
    assert q[..n] + [] == q[..n];
  }

  lemma {:induction false} LateUpTo(q: seq<QueueEntry>, now: int) returns (n: nat)
    requires ExpiryInOrder(q)
    ensures n <= |q|
    ensures (forall i :: 0 <= i < n ==> q[i].expire < now) && (forall i :: n <= i < |q| ==> q[i].expire >= now)
  {
    if q == [] || q[|q| - 1].expire < now { n := |q|; } else { n := LateUpTo(q[..|q| - 1], now); }
  }

  lemma {:induction false} AllGone(q: seq<QueueEntry>, gone: QueueEntry -> bool)
    requires forall i :: 0 <= i < |q| ==> gone(q[i])
    ensures Leaving(q, gone) == q && Remaining(q, gone) == []
  {
    hide Leaving, Remaining;
    NoKinds(gone);
    if q != [] {
      var init, e := q[..|q| - 1], q[|q| - 1];
      AllGone(init, gone);
      LastOf(init, e, gone);
      assert init + [e] == q;
    }
  }

  lemma KeptBehind(q: seq<QueueEntry>, n: nat, now: int)
    requires n <= |q| && (forall i :: 0 <= i < n ==> q[i].expire < now) && (forall i :: n <= i < |q| ==> q[i].expire >= now)
    ensures forall e :: e in q[n..] <==> e in q && e.expire >= now
  {
  }

  lemma MatchesIs(q: seq<QueueEntry>, uid: int, dst: nat)
    ensures (forall i :: 0 <= i < |q| ==> !Matches(q[i], uid, dst)) <==> forall e :: e in q ==> e.uid != uid || e.dst != dst
  {
    if forall e :: e in q ==> e.uid != uid || e.dst != dst {
      assert forall i :: 0 <= i < |q| ==> q[i] in q;
    }
  }

  // Dropping, handing out and accepting keep the times.
  lemma StaysInTime(l: Ledger, l': Ledger, times: seq<int>, reasons: seq<Reason>, timeout: int, clock: int,
                    why: Reason, now: int, out: seq<QueueEntry>)
    requires Kept(l) && Kept(l') && InTime(l, times, reasons, timeout, clock) && clock <= now
    requires l'.accepted == l.accepted && l.dropped <= l'.dropped && Packets(l', l'.dropped) == Packets(l, l.dropped) + out
    requires why.Late? ==> why.at == now && forall e :: e in out ==> e.expire < now
    ensures InTime(l', times, reasons + seq(|out|, _ => why), timeout, now)
  {
    var reasons' := reasons + seq(|out|, _ => why);
    forall i | 0 <= i < |reasons'| && reasons'[i].Late?
      ensures times[l'.dropped[i]] + timeout < reasons'[i].at <= now
    {
      if i >= |reasons| { assert Packets(l', l'.dropped)[i] == out[i - |reasons|]; }
    }
  }

  lemma DroppedInTime(l: Ledger, l': Ledger, times: seq<int>, reasons: seq<Reason>, timeout: int, clock: int)
    requires Kept(l) && Kept(l') && InTime(l, times, reasons, timeout, clock)
    requires l'.accepted == l.accepted && l.dropped <= l'.dropped && |l'.dropped| == |l.dropped| + 1
    ensures InTime(l', times, reasons + [Unwanted], timeout, clock)
  {
  }

  lemma HandedInTime(l: Ledger, l': Ledger, times: seq<int>, reasons: seq<Reason>, timeout: int, clock: int)
    requires Kept(l) && Kept(l') && InTime(l, times, reasons, timeout, clock)
    requires l'.accepted == l.accepted && l'.dropped == l.dropped
    ensures InTime(l', times, reasons, timeout, clock)
  {
  }

  lemma AcceptedInTime(l: Ledger, l': Ledger, times: seq<int>, reasons: seq<Reason>, timeout: int, clock: int, e: QueueEntry)
    requires Kept(l) && Kept(l') && InTime(l, times, reasons, timeout, clock) && e.expire == clock + timeout
    requires l'.accepted == l.accepted + [e] && l'.dropped == l.dropped
    ensures InTime(l', times + [clock], reasons, timeout, clock)
  {
  }

  lemma AllByNow(l: Ledger, times: seq<int>, reasons: seq<Reason>, timeout: int, clock: int)
    requires Kept(l) && InTime(l, times, reasons, timeout, clock)
    ensures forall i :: 0 <= i < |l.accepted| ==> l.accepted[i].expire <= clock + timeout
  {
  }

  // Whatever has been done with the queue: a packet that was reported as late had been accepted more
  // than the timeout before.
  lemma LateIsLate(q: RequestQueue, i: nat)
    requires q.Valid() && i < |q.errors| && q.reasons[i].Late?
    ensures var k := q.ledger.dropped[i];
      && q.errors[i] == q.ledger.accepted[k] && q.errors[i].expire == q.times[k] + q.timeout
      && q.times[k] + q.timeout < q.reasons[i].at <= q.clock
  {
  }

  // ---- the books behind each step ----

  lemma NothingLeaves(q: seq<QueueEntry>, gone: QueueEntry -> bool) returns (reported: seq<QueueEntry>)
    ensures reported == Leaving(q[..0], gone) == []
  {
    reported := [];
  }

  lemma NextLeaves(q: seq<QueueEntry>, i: nat, gone: QueueEntry -> bool, before: seq<QueueEntry>) returns (reported: seq<QueueEntry>)
    requires i < |q| && before == Leaving(q[..i], gone)
    ensures reported == Leaving(q[..i + 1], gone) == if gone(q[i]) then before + [q[i]] else before
  {
    hide Leaving;
    LastKind(q, i + 1, gone);
    reported := Leaving(q[..i + 1], gone);
  }

  lemma SweepAll(l: Ledger, queue: seq<QueueEntry>, gone: QueueEntry -> bool) returns (l': Ledger)
    requires Kept(l) && queue == Queue(l)
    ensures Kept(l') && l'.accepted == l.accepted && l'.handed == l.handed && l.dropped <= l'.dropped
    ensures Queue(l') == Remaining(queue, gone) && Packets(l', l'.dropped) == Packets(l, l.dropped) + Leaving(queue, gone)
  {
    l' := Sweep(l, |queue|, gone);
    assert Queue(l)[..|queue|] == queue && Queue(l)[|queue|..] == [];
    assert Remaining(queue, gone) + [] == Remaining(queue, gone);
  }

  lemma DropFirst(l: Ledger, queue: seq<QueueEntry>) returns (l': Ledger)
    requires Kept(l) && queue == Queue(l) && queue != []
    ensures Kept(l') && l'.accepted == l.accepted && l'.handed == l.handed && l'.dropped == l.dropped + [l.tickets[0]]
    ensures Queue(l') == queue[1..] && Packets(l', l'.dropped) == Packets(l, l.dropped) + [queue[0]]
  {
    DropAt(l, 0);
    hide Kept;
    l' := l.(tickets := Removed(l, 0), dropped := l.dropped + [l.tickets[0]]);
    assert queue[..0] + queue[1..] == queue[1..];
  }

  lemma AcceptEntry(l: Ledger, queue: seq<QueueEntry>, e: QueueEntry) returns (l': Ledger)
    requires Kept(l) && queue == Queue(l) && forall i :: 0 <= i < |queue| ==> !Matches(queue[i], e.uid, e.dst)
    requires forall i :: 0 <= i < |l.accepted| ==> l.accepted[i].expire <= e.expire
    ensures Kept(l') && l'.accepted == l.accepted + [e] && l'.handed == l.handed && l'.dropped == l.dropped
    ensures Queue(l') == queue + [e] && Packets(l', l'.dropped) == Packets(l, l.dropped)
  {
    Accept(l, e);
    hide Kept;
    l' := l.(accepted := l.accepted + [e], tickets := l.tickets + [|l.accepted|]);
  }

  lemma HandEntry(l: Ledger, queue: seq<QueueEntry>, i: nat) returns (l': Ledger)
    requires Kept(l) && queue == Queue(l) && i < |queue| && forall k :: 0 <= k < i ==> queue[k].dst != queue[i].dst
    ensures Kept(l') && l'.accepted == l.accepted && l'.dropped == l.dropped
    ensures |l'.handed| == |l.handed| + 1 && l.handed <= l'.handed
    ensures var last := l'.handed[|l.handed|]; last < |l.accepted| && l.accepted[last] == queue[i]
    ensures Queue(l') == queue[..i] + queue[i + 1..] && Packets(l', l'.dropped) == Packets(l, l.dropped)
  {
    HandAt(l, i);
    l' := l.(tickets := Removed(l, i), handed := l.handed + [l.tickets[i]]);
  }

  // What the books say: every accepted packet is in exactly one place, no packet is reported or
  // handed out twice, expiry times do not decrease along the queue, and of two packets handed out
  // for one destination the first accepted came first.
  lemma EveryPacketAccountedFor(q: RequestQueue)
    requires q.Valid()
    ensures InPlace(q.ledger)
    ensures |q.ledger.accepted| == |q.queue| + |q.ledger.handed| + |q.errors|
    ensures ExpiryInOrder(q.queue) && NoRepeats(q.queue) && |q.queue| <= q.maxLen && Fifo(q.ledger)
  {
    QueueInOrder(q.ledger);
    PlacesAddUp(q.ledger);
  }

  // ---- taking out all entries for a destination, one by one ----

  lemma NoKinds(gone: QueueEntry -> bool)
    ensures Leaving([], gone) == [] && Remaining([], gone) == []
  {
  }

  lemma LastOf(q: seq<QueueEntry>, e: QueueEntry, gone: QueueEntry -> bool)
    ensures Remaining(q + [e], gone) == Remaining(q, gone) + if gone(e) then [] else [e]
    ensures Leaving(q + [e], gone) == Leaving(q, gone) + if gone(e) then [e] else []
  {
    hide Remaining, Leaving;
    var all := q + [e];
    LastKind(all, |all|, gone);
    assert all[..|all|] == all && all[..|all| - 1] == q && all[|all| - 1] == e;
  }

  lemma Grouped(a: seq<QueueEntry>, b: seq<QueueEntry>, c: seq<QueueEntry>)
    ensures a + (b + c) == a + b + c
  {
  }

  lemma {:induction false} KindsConcat(a: seq<QueueEntry>, b: seq<QueueEntry>, gone: QueueEntry -> bool)
    ensures Leaving(a + b, gone) == Leaving(a, gone) + Leaving(b, gone)
    ensures Remaining(a + b, gone) == Remaining(a, gone) + Remaining(b, gone)
    decreases |b|
  {
    hide Leaving, Remaining;
    NoKinds(gone);
    if b == [] {
      assert a + b == a;
    } else {
      var init, e := b[..|b| - 1], b[|b| - 1];
      assert b == init + [e];
      Grouped(a, init, [e]);
      KindsConcat(a, init, gone);
      LastOf(a + init, e, gone);
      LastOf(init, e, gone);
      Grouped(Leaving(a, gone), Leaving(init, gone), if gone(e) then [e] else []);
      Grouped(Remaining(a, gone), Remaining(init, gone), if gone(e) then [] else [e]);
    }
  }

  lemma {:induction false} NoneGone(q: seq<QueueEntry>, gone: QueueEntry -> bool)
    requires forall i :: 0 <= i < |q| ==> !gone(q[i])
    ensures Leaving(q, gone) == [] && Remaining(q, gone) == q
  {
    hide Leaving, Remaining;
    NoKinds(gone);
    if q != [] {
      var init, e := q[..|q| - 1], q[|q| - 1];
      NoneGone(init, gone);
      LastOf(init, e, gone);
      assert init + [e] == q;
    }
  }

  // The first entry for the destination and those behind it.
  lemma FirstTaken(q: seq<QueueEntry>, i: nat, dst: nat, q': seq<QueueEntry>, e: QueueEntry)
    requires i < |q| && TakesFirst(q, i, dst, q', e)
    ensures Leaving(q, For(dst)) == [e] + Leaving(q', For(dst)) && Remaining(q, For(dst)) == Remaining(q', For(dst))
  {
    hide Leaving, Remaining;
    var a, b := q[..i], q[i + 1..];
    assert q == a + ([e] + b);
    KindsAround(a, e, b, For(dst));
  }

  lemma KindsAround(a: seq<QueueEntry>, e: QueueEntry, b: seq<QueueEntry>, gone: QueueEntry -> bool)
    requires gone(e) && forall i :: 0 <= i < |a| ==> !gone(a[i])
    ensures Leaving(a + ([e] + b), gone) == [e] + Leaving(b, gone) == [e] + Leaving(a + b, gone)
    ensures Remaining(a + ([e] + b), gone) == a + Remaining(b, gone) == Remaining(a + b, gone)
  {
    hide Leaving, Remaining;
    NoneGone(a, gone);
    OneGone(e, gone);
    KindsConcat(a, [e] + b, gone);
    KindsConcat([e], b, gone);
    KindsConcat(a, b, gone);
    Nothing(Leaving(b, gone));
    Nothing(Leaving([e] + b, gone));
    Nothing(Remaining(b, gone));
  }

  lemma OneGone(e: QueueEntry, gone: QueueEntry -> bool)
    requires gone(e)
    ensures Leaving([e], gone) == [e] && Remaining([e], gone) == []
  {
    hide Leaving, Remaining;
    NoKinds(gone);
    LastOf([], e, gone);
    assert [] + [e] == [e];
  }

  lemma Nothing(s: seq<QueueEntry>)
    ensures [] + s == s
  {
  }

  // What Dequeue has handed out so far and what it still will.
  ghost predicate Drained(q0: seq<QueueEntry>, dst: nat, now: int, q: seq<QueueEntry>, taken: seq<QueueEntry>) {
    && taken + Leaving(q, For(dst)) == Leaving(Fresh(q0, now), For(dst))
    && Remaining(q, For(dst)) == Remaining(Fresh(q0, now), For(dst))
    && Fresh(q, now) == q && Outdated(q, now) == []
  }

  lemma FreshIsDrained(q0: seq<QueueEntry>, dst: nat, now: int)
    ensures Drained(q0, dst, now, Fresh(q0, now), [])
  {
    NoneGone(Fresh(q0, now), ExpiredAt(now));
  }

  lemma OneMoreDrained(q0: seq<QueueEntry>, dst: nat, now: int, q: seq<QueueEntry>, taken: seq<QueueEntry>,
                       i: nat, q': seq<QueueEntry>, e: QueueEntry)
    requires Drained(q0, dst, now, q, taken) && i < |q| && TakesFirst(q, i, dst, q', e)
    ensures Drained(q0, dst, now, q', taken + [e])
  {
    hide Leaving, Remaining, For;
    FirstTaken(q, i, dst, q', e);
    NothingOutdated(q, now);
    NoneGone(q', ExpiredAt(now));
    Grouped(taken, [e], Leaving(q', For(dst)));
  }

  lemma NothingOutdated(q: seq<QueueEntry>, now: int)
    requires Fresh(q, now) == q
    ensures forall k :: 0 <= k < |q| ==> !ExpiredAt(now)(q[k])
  {
    hide Remaining;
    assert forall k :: 0 <= k < |q| ==> q[k] in q;
  }

  lemma AllDrained(q0: seq<QueueEntry>, dst: nat, now: int, q: seq<QueueEntry>, taken: seq<QueueEntry>)
    requires Drained(q0, dst, now, q, taken) && forall i :: 0 <= i < |q| ==> q[i].dst != dst
    ensures taken == Leaving(Fresh(q0, now), For(dst)) && q == Remaining(Fresh(q0, now), For(dst))
  {
    NoneGone(q, For(dst));
  }
}
