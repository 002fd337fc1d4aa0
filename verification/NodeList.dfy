/** The singly linked list of list.c: nodes are relinked in place. */
module NodeList {
  import opened MergeSpec
  import opened Powers
  import opened Sequences

  // Every node but the last points to the node after it.
  ghost predicate Linked<T>(s: seq<Node<T>>)
    reads s
  {
    forall i {:trigger s[i].next} :: 0 <= i < |s| - 1 ==> s[i].next == s[i + 1]
  }

  ghost predicate Terminated<T>(s: seq<Node<T>>)
    reads s
  {
    s != [] ==> s[|s| - 1].next == null
  }

  // p is the address of the first node of s, null when there is none.
  ghost predicate At<T>(p: Node?<T>, s: seq<Node<T>>) {
    if s == [] then p == null else p == s[0]
  }

  ghost predicate AtLast<T>(p: Node?<T>, s: seq<Node<T>>) {
    if s == [] then p == null else p == s[|s| - 1]
  }

  // What s[i] points to while s has not been relinked.
  ghost function After<T>(s: seq<Node<T>>, i: nat): Node?<T>
    requires i < |s|
  {
    if i + 1 < |s| then s[i + 1] else null
  }

  ghost function Address<T>(s: seq<Node<T>>, i: nat): Node?<T> {
    if i < |s| then s[i] else null
  }

  // The output of a pass so far: linked from head to tail, made of nodes of s.
  ghost predicate Output<T>(out: seq<Node<T>>, head: Node?<T>, tail: Node?<T>, s: seq<Node<T>>)
    reads out
  {
    Linked(out) && At(head, out) && AtLast(tail, out) && Distinct(out) && (forall x :: x in out ==> x in s)
  }

  // Nodes [a..m) and [c..) of s still wait: they are not in the output and point where they did.
  // (The last of a run is never followed once its run is used up.)
  ghost predicate Waiting<T>(s: seq<Node<T>>, a: nat, m: nat, c: nat, out: seq<Node<T>>)
    reads s
  {
    && (forall i {:trigger s[i].next} :: 0 <= i < |s| && (a <= i < m || c <= i) ==> s[i].next == After(s, i))
    && (forall i {:trigger s[i]} :: 0 <= i < |s| && (a <= i < m || c <= i) ==> s[i] !in out)
  }

  // nmerges merges with run size k have consumed the first done of n nodes.
  ghost predicate Merges(nmerges: int, done: nat, n: nat, k: int) {
    && nmerges >= 0
    && (nmerges == 0 ==> done == 0)
    && (nmerges == 1 ==> done == n || (done == 2 * k < n))
    && (nmerges == 1 && done == n ==> n <= 2 * k)
    && (nmerges > 1 ==> n > 2 * k)
  }

  // One step of the merge loop, seen from the node it takes.
  lemma TakeLeft<T>(out: seq<Node<T>>, s: seq<Node<T>>, a: nat, m: nat, c: nat, r: nat, cmp: (T, T) -> int)
    requires a < m <= c <= r <= |s|
    requires c < r ==> cmp(s[a].data, s[c].data) <= 0
    ensures out + Merge(s[a..m], s[c..r], cmp) == out + [s[a]] + Merge(s[a + 1..m], s[c..r], cmp)
  {
    hide Merge;
    var xs, ys := s[a..m], s[c..r];
    MergeNext(xs, ys, cmp);
    assert xs[1..] == s[a + 1..m] && xs[0] == s[a];
    Regrouped(out, xs[0], Merge(xs[1..], ys, cmp));
  }

  lemma TakeRight<T>(out: seq<Node<T>>, s: seq<Node<T>>, a: nat, m: nat, c: nat, r: nat, cmp: (T, T) -> int)
    requires a <= m <= c < r <= |s|
    requires a < m ==> cmp(s[a].data, s[c].data) > 0
    ensures out + Merge(s[a..m], s[c..r], cmp) == out + [s[c]] + Merge(s[a..m], s[c + 1..r], cmp)
  {
    hide Merge;
    var xs, ys := s[a..m], s[c..r];
    MergeNext(xs, ys, cmp);
    assert ys[1..] == s[c + 1..r] && ys[0] == s[c];
    Regrouped(out, ys[0], Merge(xs, ys[1..], cmp));
  }

  lemma InsertedParts<T>(s: seq<Node<T>>, at: nat, node: Node<T>)
    requires at <= |s|
    ensures var t := s[..at] + [node] + s[at..];
      |t| == |s| + 1 && t[..at] == s[..at] && t[at] == node && t[at + 1..] == s[at..]
  {
  }

  // A node linked in between two neighbours.
  lemma LinkedIn<T>(s: seq<Node<T>>, at: nat, node: Node<T>)
    requires at <= |s| && node.next == Address(s, at) && (at > 0 ==> s[at - 1].next == node)
    requires forall i {:trigger s[i].next} :: 0 <= i < |s| && i != at - 1 ==> s[i].next == After(s, i)
    ensures var t := s[..at] + [node] + s[at..]; Linked(t) && Terminated(t)
  {
    var t := s[..at] + [node] + s[at..];
    forall i {:trigger t[i].next} | 0 <= i < |t|
      ensures t[i].next == After(t, i)
    {
      if i < at { assert t[i] == s[i]; }
      if i > at { assert t[i] == s[i - 1]; }
    }
  }

  // What comes first in a merge.
  lemma MergeNext<T>(xs: seq<Node<T>>, ys: seq<Node<T>>, cmp: (T, T) -> int)
    ensures xs != [] && (ys == [] || cmp(xs[0].data, ys[0].data) <= 0) ==> Merge(xs, ys, cmp) == [xs[0]] + Merge(xs[1..], ys, cmp)
    ensures ys != [] && (xs == [] || cmp(xs[0].data, ys[0].data) > 0) ==> Merge(xs, ys, cmp) == [ys[0]] + Merge(xs, ys[1..], cmp)
  {
    if ys == [] && xs != [] { assert xs == [xs[0]] + xs[1..]; }
    if xs == [] && ys != [] { assert ys == [ys[0]] + ys[1..]; }
  }

  lemma Regrouped<T>(out: seq<Node<T>>, x: Node<T>, rest: seq<Node<T>>)
    ensures out + ([x] + rest) == out + [x] + rest
  {
  }

  class List<T(==)> {
    var head: Node?<T>
    var count: int
    ghost var nodes: seq<Node<T>>

    ghost predicate Valid()
      reads this, nodes
    {
      && count == |nodes|
      && Distinct(nodes) && Linked(nodes) && Terminated(nodes)
      && At(head, nodes)
    }

    constructor ()
      ensures Valid() && nodes == []
    {
      head, count, nodes := null, 0, [];
    }

    // list_add_data
    method AddHead(data: T)
      requires Valid()
      modifies this
      ensures Valid() && |nodes| == |old(nodes)| + 1
      ensures nodes[1..] == old(nodes) && nodes[0].data == data && fresh(nodes[0])
    {
      var node := new Node(data);
      node.next := head;
      head := node;
      count := count + 1;
      Inserted(nodes, 0, node);
      assert nodes[..0] + [node] + nodes[0..] == [node] + nodes;
      nodes := [node] + nodes;
    }

    // list_add_data_tail
    method AddTail(data: T)
      requires Valid()
      modifies this, nodes
      ensures Valid() && |nodes| == |old(nodes)| + 1
      ensures nodes[..|old(nodes)|] == old(nodes) && nodes[|old(nodes)|].data == data && fresh(nodes[|old(nodes)|])
    {
      var node := new Node(data);
      var temp := head;
      if temp == null {
        head := node;
        count := count + 1;
        nodes := [node];
        return;
      }
      ghost var i := 0;
      while temp.next != null
        invariant 0 <= i < |nodes| && temp == nodes[i]
        decreases |nodes| - i
      {
        temp := temp.next;
        i := i + 1;
      }
      assert temp == nodes[|nodes| - 1];
      DiffersFromOthers(nodes, |nodes| - 1);
      Appended(nodes, node);
      temp.next := node;
      count := count + 1;
      ghost var before := nodes;
      nodes := nodes + [node];
      assert forall i {:trigger before[i].next} :: 0 <= i < |before| - 1 ==> before[i].next == nodes[i + 1];
    }

    // list_add_data_sorted: in front of the first node that is not below the new one
    method AddSorted(data: T, cmp: (T, T) -> int) returns (ghost at: nat)
      requires Valid()
      modifies this, nodes
      ensures Valid() && at <= |old(nodes)| && |nodes| == |old(nodes)| + 1
      ensures nodes[..at] == old(nodes)[..at] && nodes[at + 1..] == old(nodes)[at..]
      ensures nodes[at].data == data && fresh(nodes[at])
      ensures forall i :: 0 <= i < at ==> cmp(old(nodes)[i].data, data) < 0
      ensures at < |old(nodes)| ==> cmp(old(nodes)[at].data, data) >= 0
    {
      hide Distinct, Linked, Terminated;
      var prev, n;
      prev, n, at := FindPlace(data, cmp);
      var node := new Node(data);
      ghost var before := nodes;
      Inserted(before, at, node);
      InsertedParts(before, at, node);
      LinkNode(prev, n, node, at);
      count := count + 1;
      nodes := before[..at] + [node] + before[at..];
    }

    // The assignments at the end of list_add_data_sorted.
    method LinkNode(prev: Node?<T>, n: Node?<T>, node: Node<T>, ghost at: nat)
      requires Valid() && at <= |nodes| && node !in nodes && n == Address(nodes, at)
      requires (prev == null <==> at == 0) && (at > 0 ==> prev == nodes[at - 1])
      modifies this`head, node`next, nodes
      ensures nodes == old(nodes) && count == old(count)
      ensures var t := nodes[..at] + [node] + nodes[at..]; Linked(t) && Terminated(t) && At(head, t)
    {
      node.next := n;
      if prev == null {
        head := node;
      } else {
        DiffersFromOthers(nodes, at - 1);
        hide Distinct;
        prev.next := node;
      }
      LinkedIn(nodes, at, node);
    }

    // The loop of list_add_data_sorted: past every node that is below data.
    method FindPlace(data: T, cmp: (T, T) -> int) returns (prev: Node?<T>, n: Node?<T>, ghost at: nat)
      requires Valid()
      ensures at <= |nodes| && n == Address(nodes, at) && prev == (if at == 0 then null else nodes[at - 1]) && (prev == null <==> at == 0)
      ensures forall i :: 0 <= i < at ==> cmp(nodes[i].data, data) < 0
      ensures at < |nodes| ==> cmp(nodes[at].data, data) >= 0
    {
      n, prev, at := head, null, 0;
      while n != null && cmp(n.data, data) < 0
        invariant 0 <= at <= |nodes|
        invariant n == Address(nodes, at)
        invariant prev == if at == 0 then null else nodes[at - 1]
        invariant forall i :: 0 <= i < at ==> cmp(nodes[i].data, data) < 0
        decreases |nodes| - at
      {
        prev := n;
        n := n.next;
        at := at + 1;
      }
    }

    // list_remove_data: the first node that carries data, if there is one
    method RemoveData(data: T) returns (ghost at: nat)
      requires Valid()
      modifies this, nodes
      ensures Valid()
      ensures at <= |old(nodes)| && (forall i :: 0 <= i < at ==> old(nodes)[i].data != data)
      ensures at == |old(nodes)| ==> nodes == old(nodes)
      ensures at < |old(nodes)| ==> old(nodes)[at].data == data && nodes == old(nodes)[..at] + old(nodes)[at + 1..]
    {
      var n := head;
      var prev: Node?<T> := null;
      at := 0;
      while n != null
        invariant 0 <= at <= |nodes|
        invariant n == Address(nodes, at)
        invariant prev == if at == 0 then null else nodes[at - 1]
        invariant forall i :: 0 <= i < at ==> nodes[i].data != data
        decreases |nodes| - at
      {
        if n.data == data {
          Removed(nodes, at);
          if prev == null {
            head := n.next;
          } else {
            DiffersFromOthers(nodes, at - 1);
            prev.next := n.next;
          }
          count := count - 1;
          nodes := nodes[..at] + nodes[at + 1..];
          return;
        }
        prev := n;
        n := n.next;
        at := at + 1;
      }
    }

    // list_sort
    method Sort(cmp: (T, T) -> int) returns (ghost passes: nat, ghost comparisons: nat)
      requires Valid()
      modifies this, nodes
      ensures Valid() && count == old(count)
      ensures nodes == if old(nodes) == [] then [] else Passes(old(nodes), 1, cmp)
      ensures old(nodes) != [] ==> passes == if count == 1 then 1 else CeilLog2(count)
      ensures comparisons <= count * CeilLog2(count)
    {
      hide Distinct, CeilLog2, Pass;
      passes, comparisons := 0, 0;
      if head == null { return; }
      var h := head;
      var insize := 1;
      ghost var s, n, bound, goal := nodes, |nodes|, 0, Passes(nodes, 1, cmp);
      while true
        invariant |s| == n > 0 && h == s[0]
        invariant Distinct(s) && Linked(s) && Terminated(s)
        invariant nodes == old(nodes) && count == n
        invariant forall x :: x in s ==> x in nodes
        invariant insize == Power(2, passes) && Passes(s, insize, cmp) == goal
        invariant insize == 1 || insize < n
        invariant comparisons <= bound == passes * (n - 1)
        decreases |s| - insize
      {
        ghost var before := s;
        ghost var c: nat;
        var nmerges;
        h, nmerges, s, c := OnePass(h, insize, cmp, s, nodes);
        OneMorePass(n, passes);
        passes, bound := passes + 1, bound + (n - 1);
        comparisons := comparisons + c;
        if nmerges <= 1 {
          head := h;
          nodes := s;
          CountBounds(n, passes, comparisons);
          return;
        }
        insize := insize * 2;
      }
    }

    // The body of the outer loop of list_sort: from p, merge runs of insize nodes pairwise.
    static method OnePass(p0: Node<T>, insize: int, cmp: (T, T) -> int,
                          ghost s: seq<Node<T>>, ghost all: seq<Node<T>>)
      returns (head: Node?<T>, nmerges: int, ghost out: seq<Node<T>>, ghost comparisons: nat)
      requires insize > 0 && s != [] && p0 == s[0]
      requires Distinct(s) && Linked(s) && Terminated(s)
      requires forall x :: x in s ==> x in all
      modifies all
      ensures out == Pass(s, 0, insize, cmp) && |out| == |s|
      ensures At(head, out) && Linked(out) && Terminated(out) && Distinct(out)
      ensures forall x :: x in out ==> x in all
      ensures nmerges <= 1 <==> |s| <= 2 * insize
      ensures comparisons < |s|
    {
      var p: Node?<T> := p0;
      var tail: Node?<T> := null;
      head, nmerges := null, 0;
      ghost var done, goal := 0, Pass(s, 0, insize, cmp);
      out, comparisons := [], 0;
      while p != null
        invariant 0 <= done <= |s| && p == Address(s, done)
        invariant out + Pass(s, done, insize, cmp) == goal
        invariant Output(out, head, tail, s) && Waiting(s, done, done, done, out)
        invariant |out| == done
        invariant comparisons + nmerges <= done
        invariant Merges(nmerges, done, |s|, insize)
        decreases |s| - done
      {
        nmerges := nmerges + 1;
        ghost var c: nat;
        PassStep(out, s, done, insize, cmp);
        p, head, tail, out, c := MergePair(p, insize, head, tail, cmp, s, done, out, all);
        comparisons := comparisons + c;
        done := Min(done + 2 * insize, |s|);
      }
      CutTail(head, tail, s, out, all);
    }

    // The body of the while (p) loop of list_sort: merge the next two runs.
    static method MergePair(p0: Node<T>, insize: int, head0: Node?<T>, tail0: Node?<T>, cmp: (T, T) -> int,
                            ghost s: seq<Node<T>>, ghost lo: nat, ghost out0: seq<Node<T>>, ghost all: seq<Node<T>>)
      returns (p: Node?<T>, head: Node?<T>, tail: Node?<T>, ghost out: seq<Node<T>>, ghost comparisons: nat)
      requires insize > 0 && lo < |s| && p0 == s[lo]
      requires Distinct(s) && Output(out0, head0, tail0, s) && Waiting(s, lo, lo, lo, out0)
      requires forall x :: x in s ==> x in all
      modifies all
      ensures var m := Min(lo + insize, |s|); var r := Min(lo + 2 * insize, |s|);
        && out == out0 + Merge(s[lo..m], s[m..r], cmp)
        && p == Address(s, r) && Waiting(s, r, r, r, out)
        && |out| == |out0| + r - lo
        && comparisons + 1 <= r - lo
      ensures Output(out, head, tail, s)
    {
      hide Merge, Output, Distinct;
      var q, psize := SkipRun(p0, insize, s, lo);
      assert lo + psize == Min(lo + insize, |s|) && Min(lo + psize + insize, |s|) == Min(lo + 2 * insize, |s|);
      p, head, tail, out, comparisons :=
        MergeRuns(p0, q, psize, insize, head0, tail0, cmp, s, lo, lo + psize, out0, all);
    }

    // tail->next = NULL
    static method CutTail(head: Node?<T>, tail: Node?<T>, ghost s: seq<Node<T>>, ghost out: seq<Node<T>>, ghost all: seq<Node<T>>)
      requires out != [] && Output(out, head, tail, s)
      requires forall x :: x in s ==> x in all
      modifies all
      ensures At(head, out) && Linked(out) && Terminated(out) && Distinct(out)
      ensures forall x :: x in out ==> x in all
    {
      assert tail == out[|out| - 1] && tail in out && tail in s && tail in all;
      DiffersFromOthers(out, |out| - 1);
      tail.next := null;
    }

    // The for loop of list_sort: walk at most insize nodes on from p.
    static method SkipRun(p: Node<T>, insize: int, ghost s: seq<Node<T>>, ghost lo: nat)
      returns (q: Node?<T>, psize: int)
      requires insize > 0 && lo < |s| && p == s[lo]
      requires forall i {:trigger s[i].next} :: lo <= i < |s| ==> s[i].next == After(s, i)
      ensures psize == Min(insize, |s| - lo) && q == Address(s, lo + psize)
    {
      q, psize := p, 0;
      for i := 0 to insize
        invariant 0 <= psize == i <= |s| - lo
        invariant q == Address(s, lo + psize) && q != null
      {
        psize := psize + 1;
        assert q == s[lo + psize - 1];
        q := q.next;
        if q == null { break; }
      }
    }

    // The innermost loop of list_sort: merge the run of psize nodes at p with the run of at most
    // qsize nodes at q, appending each node taken to the output that ends at tail.
    static method MergeRuns(p0: Node?<T>, q0: Node?<T>, psize0: int, qsize0: int,
                            head0: Node?<T>, tail0: Node?<T>, cmp: (T, T) -> int,
                            ghost s: seq<Node<T>>, ghost lo: nat, ghost m: nat, ghost out0: seq<Node<T>>,
                            ghost all: seq<Node<T>>)
      returns (q: Node?<T>, head: Node?<T>, tail: Node?<T>, ghost out: seq<Node<T>>, ghost comparisons: nat)
      requires qsize0 > 0 && psize0 == m - lo > 0 && m <= |s| && p0 == s[lo] && q0 == Address(s, m)
      requires Distinct(s) && Output(out0, head0, tail0, s) && Waiting(s, lo, m, m, out0)
      requires forall x :: x in s ==> x in all
      modifies all
      ensures var r := Min(m + qsize0, |s|);
        && out == out0 + Merge(s[lo..m], s[m..r], cmp)
        && q == Address(s, r) && Waiting(s, r, r, r, out)
        && |out| == |out0| + r - lo
        && comparisons + 1 <= r - lo
      ensures Output(out, head, tail, s)
    {
      var p, psize, qsize := p0, psize0, qsize0;
      q, head, tail := q0, head0, tail0;
      ghost var a, c, r := lo, m, Min(m + qsize0, |s|);
      out, comparisons := out0, 0;
      ghost var goal := out0 + Merge(s[lo..m], s[m..r], cmp);
      while psize > 0 || (qsize > 0 && q != null)
        invariant lo <= a <= m <= c <= r && psize == m - a && qsize == m + qsize0 - c
        invariant (a < m ==> p == s[a]) && q == Address(s, c)
        invariant out + Merge(s[a..m], s[c..r], cmp) == goal
        invariant Output(out, head, tail, s) && Waiting(s, a, m, c, out)
        invariant |out| - |out0| == (a - lo) + (c - m)
        invariant comparisons <= |out| - |out0|
        invariant comparisons == |out| - |out0| ==> a < m || c < r
        decreases psize + qsize
      {
        var e: Node<T>;
        ghost var left: bool, compared: nat;
        e, p, q, psize, qsize, left, compared := PickNext(p, q, psize, qsize, cmp, s, a, m, c, r);
        if left { TakeLeft(out, s, a, m, c, r, cmp); } else { TakeRight(out, s, a, m, c, r, cmp); }
        comparisons := comparisons + compared;
        ghost var a', c' := if left then a + 1 else a, if left then c else c + 1;
        head := Append(head, tail, e, s, a, a', m, c, c', out, all);
        tail := e;
        out := out + [e];
        a, c := a', c';
      }
    }

    // The if chain of list_sort: the node that comes next, taken off its run.
    static method PickNext(p0: Node?<T>, q0: Node?<T>, psize0: int, qsize0: int, cmp: (T, T) -> int,
                           ghost s: seq<Node<T>>, ghost a: nat, ghost m: nat, ghost c: nat, ghost r: nat)
      returns (e: Node<T>, p: Node?<T>, q: Node?<T>, psize: int, qsize: int, ghost left: bool, ghost compared: nat)
      requires qsize0 >= 0 && a <= m <= c <= r <= |s| && psize0 == m - a && r == Min(c + qsize0, |s|)
      requires (a < m ==> p0 == s[a]) && q0 == Address(s, c) && (a < m || c < r)
      requires forall i {:trigger s[i].next} :: 0 <= i < |s| && (a <= i < m || c <= i) ==> s[i].next == After(s, i)
      ensures left == (a < m && (c == r || cmp(s[a].data, s[c].data) <= 0))
      ensures compared == if a < m && c < r then 1 else 0
      ensures if left then e == s[a] && psize == psize0 - 1 && qsize == qsize0 && (a + 1 < m ==> p == s[a + 1]) && q == q0
              else c < r && e == s[c] && psize == psize0 && qsize == qsize0 - 1 && p == p0 && q == Address(s, c + 1)
    {
      p, q, psize, qsize, compared := p0, q0, psize0, qsize0, 0;
      if psize == 0 {
        left := false;
        e := q; q := q.next; qsize := qsize - 1;
      } else if qsize == 0 || q == null {
        left := true;
        e := p; p := p.next; psize := psize - 1;
      } else if cmp(p.data, q.data) <= 0 {
        left, compared := true, 1;
        e := p; p := p.next; psize := psize - 1;
      } else {
        left, compared := false, 1;
        e := q; q := q.next; qsize := qsize - 1;
      }
    }

    // Hang the node e, the next of the left or of the right run, behind the output.
    static method Append(head0: Node?<T>, tail: Node?<T>, e: Node<T>, ghost s: seq<Node<T>>,
                         ghost a: nat, ghost a': nat, ghost m: nat, ghost c: nat, ghost c': nat,
                         ghost out: seq<Node<T>>, ghost all: seq<Node<T>>)
      returns (head: Node?<T>)
      requires a <= m <= c <= |s|
      requires (a < m && a' == a + 1 && c' == c && e == s[a]) || (c < |s| && a' == a && c' == c + 1 && e == s[c])
      requires Distinct(s) && Output(out, head0, tail, s) && Waiting(s, a, m, c, out)
      requires forall x :: x in s ==> x in all
      modifies all
      ensures Output(out + [e], head, e, s)
      ensures Waiting(s, a', m, c', out + [e])
    {
      head := head0;
      Appended(out, e);
      DiffersFromOthers(s, if a < a' then a else c);
      if tail != null {
        DiffersFromOthers(out, |out| - 1);
        assert tail == out[|out| - 1] && tail in out && tail in s && tail in all;
        tail.next := e;
      } else {
        head := e;
      }
    }
  }

  // The sign convention of C comparators.
  ghost predicate Comparator<T(!new)>(cmp: (T, T) -> int) {
    forall a, b :: cmp(a, b) >= 0 ==> cmp(b, a) <= 0
  }

  // Comparing integers by their difference is of this kind.
  lemma IntegersCompare()
    ensures var cmp := (a: int, b: int) => a - b; TotalPreorder(cmp) && Comparator(cmp)
  {
  }

  // Where AddSorted puts a node keeps a sorted list sorted.
  lemma AddSortedKeepsOrder<T(!new)>(s: seq<Node<T>>, at: nat, node: Node<T>, cmp: (T, T) -> int)
    requires TotalPreorder(cmp) && Comparator(cmp) && Sorted(s, cmp) && at <= |s|
    requires forall i :: 0 <= i < at ==> cmp(s[i].data, node.data) < 0
    requires at < |s| ==> cmp(s[at].data, node.data) >= 0
    ensures Sorted(s[..at] + [node] + s[at..], cmp)
  {
    var t := s[..at] + [node] + s[at..];
    forall i, j | 0 <= i < j < |t|
      ensures cmp(t[i].data, t[j].data) <= 0
    {
      if i == at {
        assert cmp(node.data, s[at].data) <= 0;
        assert j - 1 == at || cmp(s[at].data, s[j - 1].data) <= 0;
      }
    }
  }

  // For no other: where the convention is broken for two values, AddSorted puts the second in front
  // of the first and that is out of order.
  lemma OnlyForComparators<T(!new)>(cmp: (T, T) -> int, first: Node<T>, second: Node<T>)
    requires TotalPreorder(cmp) && !(cmp(first.data, second.data) >= 0 ==> cmp(second.data, first.data) <= 0)
    ensures var s := [first];
      && Sorted(s, cmp) && cmp(s[0].data, second.data) >= 0
      && !Sorted(s[..0] + [second] + s[0..], cmp) && Sorted(s[..1] + [second] + s[1..], cmp)
  {
    var t := [first][..0] + [second] + [first][0..];
    assert t[0] == second && t[1] == first;
  }

  // A pass merges the runs [lo..m) and [m..r) and goes on from r.
  lemma PassStep<T>(out: seq<Node<T>>, s: seq<Node<T>>, lo: nat, k: nat, cmp: (T, T) -> int)
    requires lo < |s| && k > 0
    ensures var m := Min(lo + k, |s|); var r := Min(lo + 2 * k, |s|);
      out + Pass(s, lo, k, cmp) == (out + Merge(s[lo..m], s[m..r], cmp)) + Pass(s, r, k, cmp)
  {
  }

  lemma OneMorePass(n: nat, passes: nat)
    ensures (passes + 1) * (n - 1) == passes * (n - 1) + (n - 1)
  {
  }

  lemma CountBounds(n: nat, passes: nat, comparisons: nat)
    requires n > 0 && passes > 0 && comparisons <= passes * (n - 1)
    requires n <= Power(2, passes) && (passes == 1 || Power(2, passes - 1) < n)
    ensures passes == if n == 1 then 1 else CeilLog2(n)
    ensures comparisons <= n * CeilLog2(n)
  {
    if n > 1 {
      CeilLog2Unique(n, passes);
      assert passes * (n - 1) == n * passes - passes;
    }
  }
}
