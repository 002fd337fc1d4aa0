/** What becomes of the packets a request queue accepts: each is queued, dequeued or dropped. */
module RequestLedger {
  import opened Sequences

  // QueueEntry: the packet's uid, its destination and when it expires.
  datatype QueueEntry = QueueEntry(uid: int, dst: nat, expire: int)

  // accepted lists all packets ever accepted; the others hold positions in it, called tickets:
  // those in the queue, those handed out by Dequeue and those reported by Drop, each in order.
  datatype Ledger = Ledger(accepted: seq<QueueEntry>, tickets: seq<nat>, handed: seq<nat>, dropped: seq<nat>)

  ghost predicate Known(l: Ledger) {
    && (forall i :: 0 <= i < |l.tickets| ==> l.tickets[i] < |l.accepted|)
    && (forall i :: 0 <= i < |l.handed| ==> l.handed[i] < |l.accepted|)
    && (forall i :: 0 <= i < |l.dropped| ==> l.dropped[i] < |l.accepted|)
  }

  // Packet k is in exactly one place.
  ghost predicate InOnePlace(l: Ledger, k: nat) {
    || (k in l.tickets && k !in l.handed && k !in l.dropped)
    || (k !in l.tickets && k in l.handed && k !in l.dropped)
    || (k !in l.tickets && k !in l.handed && k in l.dropped)
  }

  ghost predicate Increasing(s: seq<nat>) {
    forall i, j :: 0 <= i < j < |s| ==> s[i] < s[j]
  }

  // Of two packets for one destination the first accepted is the first handed out.
  ghost predicate Fifo(l: Ledger)
    requires Known(l)
  {
    && (forall i, j :: 0 <= i < j < |l.handed| && l.accepted[l.handed[i]].dst == l.accepted[l.handed[j]].dst ==>
          l.handed[i] < l.handed[j])
    && (forall i, j :: 0 <= i < |l.handed| && 0 <= j < |l.tickets| && l.accepted[l.handed[i]].dst == l.accepted[l.tickets[j]].dst ==>
          l.handed[i] < l.tickets[j])
  }

  // The queue that the tickets stand for.
  ghost function Queue(l: Ledger): (q: seq<QueueEntry>)
    requires Known(l)
    ensures |q| == |l.tickets| && forall i :: 0 <= i < |q| ==> q[i] == l.accepted[l.tickets[i]]
  {
    seq(|l.tickets|, i requires 0 <= i < |l.tickets| => l.accepted[l.tickets[i]])
  }

  // No packet is queued twice for the same destination.
  ghost predicate NoRepeats(q: seq<QueueEntry>) {
    forall i, j :: 0 <= i < j < |q| ==> !(q[i].uid == q[j].uid && q[i].dst == q[j].dst)
  }

  ghost predicate ExpiryInOrder(q: seq<QueueEntry>) {
    forall i, j :: 0 <= i < j < |q| ==> q[i].expire <= q[j].expire
  }

  // Every accepted packet is.
  ghost predicate InPlace(l: Ledger) {
    forall k: nat {:trigger InOnePlace(l, k)} :: k < |l.accepted| ==> InOnePlace(l, k)
  }

  ghost predicate Kept(l: Ledger) {
    && Known(l) && Increasing(l.tickets) && InPlace(l)
    && Distinct(l.handed) && Distinct(l.dropped) && Fifo(l)
    && ExpiryInOrder(l.accepted) && NoRepeats(Queue(l))
  }

  lemma QueueInOrder(l: Ledger)
    requires Kept(l)
    ensures ExpiryInOrder(Queue(l))
  {
    hide Fifo, Distinct, NoRepeats;
  }

  // A packet that is not queued yet comes in at the end.
  lemma Accept(l: Ledger, e: QueueEntry)
    requires Kept(l) && forall i :: 0 <= i < |Queue(l)| ==> !(Queue(l)[i].uid == e.uid && Queue(l)[i].dst == e.dst)
    requires forall i :: 0 <= i < |l.accepted| ==> l.accepted[i].expire <= e.expire
    ensures var l' := l.(accepted := l.accepted + [e], tickets := l.tickets + [|l.accepted|]);
      Kept(l') && Queue(l') == Queue(l) + [e]
  {
    var l' := l.(accepted := l.accepted + [e], tickets := l.tickets + [|l.accepted|]);
    AcceptedInPlace(l, e);
    AcceptedFifo(l, e);
    hide Fifo, InPlace, Distinct;
    assert Queue(l') == Queue(l) + [e];
  }

  lemma AcceptedInPlace(l: Ledger, e: QueueEntry)
    requires Known(l) && InPlace(l)
    ensures InPlace(l.(accepted := l.accepted + [e], tickets := l.tickets + [|l.accepted|]))
  {
    var l' := l.(accepted := l.accepted + [e], tickets := l.tickets + [|l.accepted|]);
    forall k: nat | k < |l'.accepted|
      ensures InOnePlace(l', k)
    {
      if k < |l.accepted| { assert InOnePlace(l, k); } else { assert l'.tickets[|l.tickets|] == k; }
    }
  }

  lemma AcceptedFifo(l: Ledger, e: QueueEntry)
    requires Known(l) && Fifo(l)
    ensures var l' := l.(accepted := l.accepted + [e], tickets := l.tickets + [|l.accepted|]); Known(l') && Fifo(l')
  {
  }

  ghost function Removed(l: Ledger, i: nat): seq<nat>
    requires i < |l.tickets|
  {
    l.tickets[..i] + l.tickets[i + 1..]
  }

  // A ticket leaves the queue.
  lemma RemovedIs(l: Ledger, i: nat)
    requires Known(l) && Increasing(l.tickets) && i < |l.tickets|
    ensures var t := Removed(l, i);
      && |t| == |l.tickets| - 1 && Increasing(t)
      && (forall k {:trigger t[k]} :: 0 <= k < |t| ==> t[k] == l.tickets[if k < i then k else k + 1])
      && (forall k: nat :: k in t <==> k in l.tickets && k != l.tickets[i])
  {
    var t := Removed(l, i);
    forall k: nat | k in l.tickets && k != l.tickets[i]
      ensures k in t
    {
      var j :| 0 <= j < |l.tickets| && l.tickets[j] == k;
      assert t[if j < i then j else j - 1] == k;
    }
  }

  lemma MovedInPlace(l: Ledger, i: nat, l': Ledger)
    requires Known(l) && Increasing(l.tickets) && i < |l.tickets| && InPlace(l)
    requires || l' == l.(tickets := Removed(l, i), dropped := l.dropped + [l.tickets[i]])
             || l' == l.(tickets := Removed(l, i), handed := l.handed + [l.tickets[i]])
    ensures InPlace(l')
  {
    RemovedIs(l, i);
    hide Removed, Increasing, Known;
    forall k: nat | k < |l.accepted|
      ensures InOnePlace(l', k)
    {
      assert InOnePlace(l, k);
    }
  }

  // An entry is reported and leaves the queue.
  lemma DropAt(l: Ledger, i: nat)
    requires Kept(l) && i < |l.tickets|
    ensures var l' := l.(tickets := Removed(l, i), dropped := l.dropped + [l.tickets[i]]);
      Kept(l') && Queue(l') == Queue(l)[..i] + Queue(l)[i + 1..]
  {
    var l' := l.(tickets := Removed(l, i), dropped := l.dropped + [l.tickets[i]]);
    RemovedIs(l, i);
    MovedInPlace(l, i, l');
    assert InOnePlace(l, l.tickets[i]);
    Appended(l.dropped, l.tickets[i]);
    hide Distinct, InPlace, InOnePlace, Removed;
    assert Queue(l') == Queue(l)[..i] + Queue(l)[i + 1..];
  }

  // The first entry for a destination is handed out and leaves the queue.
  lemma HandAt(l: Ledger, i: nat)
    requires Kept(l) && i < |l.tickets|
    requires forall k :: 0 <= k < i ==> Queue(l)[k].dst != Queue(l)[i].dst
    ensures var l' := l.(tickets := Removed(l, i), handed := l.handed + [l.tickets[i]]);
      Kept(l') && Queue(l') == Queue(l)[..i] + Queue(l)[i + 1..]
  {
    var l' := l.(tickets := Removed(l, i), handed := l.handed + [l.tickets[i]]);
    RemovedIs(l, i);
    MovedInPlace(l, i, l');
    assert InOnePlace(l, l.tickets[i]);
    Appended(l.handed, l.tickets[i]);
    hide Distinct, InPlace, InOnePlace, Removed;
    assert Queue(l') == Queue(l)[..i] + Queue(l)[i + 1..];
  }

  // ---- dropping all entries of a kind ----

  // What std::remove_if leaves.
  function Remaining(q: seq<QueueEntry>, gone: QueueEntry -> bool): (r: seq<QueueEntry>)
    ensures |r| <= |q| && forall e :: e in r <==> e in q && !gone(e)
  {
    if q == [] then []
    else
      var n := |q| - 1;
      assert forall e :: e in q <==> e in q[..n] || e == q[n];
      Remaining(q[..n], gone) + if gone(q[n]) then [] else [q[n]]
  }

  // What the pass over the queue reports.
  function Leaving(q: seq<QueueEntry>, gone: QueueEntry -> bool): (r: seq<QueueEntry>)
    ensures forall e :: e in r <==> e in q && gone(e)
  {
    if q == [] then []
    else
      var n := |q| - 1;
      assert forall e :: e in q <==> e in q[..n] || e == q[n];
      Leaving(q[..n], gone) + if gone(q[n]) then [q[n]] else []
  }

  // The packets that tickets stand for.
  ghost function Packets(l: Ledger, s: seq<nat>): (r: seq<QueueEntry>)
    requires forall i :: 0 <= i < |s| ==> s[i] < |l.accepted|
    ensures |r| == |s| && forall i :: 0 <= i < |r| ==> r[i] == l.accepted[s[i]]
  {
    seq(|s|, i requires 0 <= i < |s| => l.accepted[s[i]])
  }

  // The books after a pass that drops the entries of a kind among the first n.
  ghost predicate Swept(l: Ledger, n: nat, gone: QueueEntry -> bool, l': Ledger)
    requires Known(l) && n <= |l.tickets|
  {
    && Kept(l') && l'.accepted == l.accepted && l'.handed == l.handed && l.dropped <= l'.dropped
    && Queue(l') == Remaining(Queue(l)[..n], gone) + Queue(l)[n..]
    && Packets(l', l'.dropped) == Packets(l, l.dropped) + Leaving(Queue(l)[..n], gone)
  }

  lemma {:induction false} Sweep(l: Ledger, n: nat, gone: QueueEntry -> bool) returns (l': Ledger)
    requires Kept(l) && n <= |l.tickets|
    ensures Swept(l, n, gone, l')
    decreases n
  {
    if n == 0 {
      l' := l;
    } else {
      var l1 := Sweep(l, n - 1, gone);
      l' := SweepNext(l, n, gone, l1);
    }
  }

  // Entry n - 1 now stands behind those that remain.
  lemma SweepNext(l: Ledger, n: nat, gone: QueueEntry -> bool, l1: Ledger) returns (l': Ledger)
    requires Known(l) && 0 < n <= |l.tickets| && Swept(l, n - 1, gone, l1)
    ensures Swept(l, n, gone, l')
  {
    hide Kept, Remaining, Leaving, Known;
    var q := Queue(l);
    var rem := Remaining(q[..n - 1], gone);
    LastKind(q, n, gone);
    KeptIsKnown(l1);
    SplitAt(q, n, rem, Queue(l1));
    if gone(q[n - 1]) {
      DropAt(l1, |rem|);
      l' := l1.(tickets := Removed(l1, |rem|), dropped := l1.dropped + [l1.tickets[|rem|]]);
      KeptIsKnown(l');
      assert Packets(l', l'.dropped) == Packets(l1, l1.dropped) + [q[n - 1]];
    } else {
      l' := l1;
    }
  }

  lemma KeptIsKnown(l: Ledger)
    requires Kept(l)
    ensures Known(l) && forall i :: 0 <= i < |l.dropped| ==> l.dropped[i] < |l.accepted|
  {
  }

  lemma SplitAt(q: seq<QueueEntry>, n: nat, rem: seq<QueueEntry>, q1: seq<QueueEntry>)
    requires 0 < n <= |q| && q1 == rem + q[n - 1..]
    ensures |rem| < |q1| && q1[|rem|] == q[n - 1] && q1[..|rem|] == rem && q1[|rem| + 1..] == q[n..]
    ensures rem + [q[n - 1]] + q[n..] == q1 && rem + [] + q[n..] == rem + q[n..]
  {
  }

  lemma LastKind(q: seq<QueueEntry>, n: nat, gone: QueueEntry -> bool)
    requires 0 < n <= |q|
    ensures Remaining(q[..n], gone) == Remaining(q[..n - 1], gone) + if gone(q[n - 1]) then [] else [q[n - 1]]
    ensures Leaving(q[..n], gone) == Leaving(q[..n - 1], gone) + if gone(q[n - 1]) then [q[n - 1]] else []
  {
    assert q[..n][..n - 1] == q[..n - 1];
  }

  // ---- counting ----

  ghost function Members(s: seq<nat>): set<nat> {
    set i | 0 <= i < |s| :: s[i]
  }

  lemma {:induction false} MembersCount(s: seq<nat>)
    requires Distinct(s)
    ensures |Members(s)| == |s|
  {
    if s != [] {
      var n := |s| - 1;
      Prefix(s, n);
      DiffersFromOthers(s, n);
      MembersCount(s[..n]);
      assert Members(s) == Members(s[..n]) + {s[n]};
    }
  }

  ghost function Below(n: nat): (r: set<nat>)
    ensures |r| == n && forall k :: k in r <==> 0 <= k < n
  {
    if n == 0 then {} else Below(n - 1) + {n - 1}
  }

  // There are as many packets in the three places together as were accepted.
  lemma PlacesAddUp(l: Ledger)
    requires Kept(l)
    ensures |l.accepted| == |l.tickets| + |l.handed| + |l.dropped|
  {
    hide Fifo, NoRepeats, ExpiryInOrder, InPlace, Members;
    var t, h, d := Members(l.tickets), Members(l.handed), Members(l.dropped);
    IncreasingIsDistinct(l.tickets);
    MembersCount(l.tickets);
    MembersCount(l.handed);
    MembersCount(l.dropped);
    ThreeParts(l);
    assert |t + h + d| == |t| + |h| + |d|;
  }

  lemma ThreeParts(l: Ledger)
    requires Known(l) && InPlace(l)
    ensures var t, h, d := Members(l.tickets), Members(l.handed), Members(l.dropped);
      t !! h && (t + h) !! d && |t + h + d| == |l.accepted|
  {
    var t, h, d := Members(l.tickets), Members(l.handed), Members(l.dropped);
    forall k: nat
      ensures k < |l.accepted| <==> k in t + h + d
      ensures !(k in t && k in h) && !(k in t + h && k in d)
    {
      OneOfThree(l, k);
    }
    hide Known, InPlace, Members;
    assert Below(|l.accepted|) == t + h + d;
  }

  lemma OneOfThree(l: Ledger, k: nat)
    requires Known(l) && InPlace(l)
    ensures var t, h, d := Members(l.tickets), Members(l.handed), Members(l.dropped);
      (k < |l.accepted| <==> k in t + h + d) && !(k in t && k in h) && !(k in t + h && k in d)
  {
    if k < |l.accepted| { assert InOnePlace(l, k); }
  }

  lemma IncreasingIsDistinct(s: seq<nat>)
    requires Increasing(s)
    ensures Distinct(s)
  {
  }
}
