/** What the passes of the list sort compute, on sequences of list nodes.
    The node class lives here because every function below is about nodes; a node's payload
    never changes after it is created, so none of them reads the heap. */
module MergeSpec {
  import opened Powers

  class Node<T> {
    const data: T
    var next: Node?<T>

    constructor (data: T)
      ensures this.data == data && next == null
    {
      this.data := data;
      next := null;
    }
  }

  ghost predicate TotalPreorder<T(!new)>(cmp: (T, T) -> int) {
    && (forall a, b :: cmp(a, b) <= 0 || cmp(b, a) <= 0)
    && (forall a, b, c :: cmp(a, b) <= 0 && cmp(b, c) <= 0 ==> cmp(a, c) <= 0)
  }

  ghost predicate Sorted<T>(s: seq<Node<T>>, cmp: (T, T) -> int) {
    forall i, j :: 0 <= i < j < |s| ==> cmp(s[i].data, s[j].data) <= 0
  }

  // Every aligned block of k nodes is sorted, from the block that starts at lo on.
  ghost predicate BlocksSorted<T>(s: seq<Node<T>>, lo: nat, k: nat, cmp: (T, T) -> int)
    requires k > 0
    decreases |s| - lo
  {
    lo < |s| ==> Sorted(s[lo..Min(lo + k, |s|)], cmp) && BlocksSorted(s, lo + k, k, cmp)
  }

  ghost predicate SameKey<T>(a: T, b: T, cmp: (T, T) -> int) {
    cmp(a, b) <= 0 && cmp(b, a) <= 0
  }

  // The nodes of s whose key is that of g, in their order in s.
  ghost function WithKey<T>(s: seq<Node<T>>, g: T, cmp: (T, T) -> int): seq<Node<T>> {
    if s == [] then []
    else (if SameKey(s[0].data, g, cmp) then [s[0]] else []) + WithKey(s[1..], g, cmp)
  }

  function Min(a: nat, b: nat): nat { if a <= b then a else b }

  ghost function Merge<T>(xs: seq<Node<T>>, ys: seq<Node<T>>, cmp: (T, T) -> int): seq<Node<T>>
    decreases |xs| + |ys|
  {
    if xs == [] then ys
    else if ys == [] then xs
    else if cmp(xs[0].data, ys[0].data) <= 0 then [xs[0]] + Merge(xs[1..], ys, cmp)
    else [ys[0]] + Merge(xs, ys[1..], cmp)
  }

  // One pass with run size k, from index lo on: neighbouring runs are merged pairwise.
  ghost function Pass<T>(s: seq<Node<T>>, lo: nat, k: nat, cmp: (T, T) -> int): (t: seq<Node<T>>)
    requires k > 0
    ensures lo <= |s| ==> |t| == |s| - lo
    decreases |s| - lo
  {
    if lo >= |s| then []
    else
      var m, r := Min(lo + k, |s|), Min(lo + 2 * k, |s|);
      MergeLength(s[lo..m], s[m..r], cmp);
      Merge(s[lo..m], s[m..r], cmp) + Pass(s, r, k, cmp)
  }

  // The passes from run size k on; the last one is the one that merges at most once.
  ghost function Passes<T>(s: seq<Node<T>>, k: nat, cmp: (T, T) -> int): (r: seq<Node<T>>)
    requires k > 0
    decreases |s| - k
  {
    var t := Pass(s, 0, k, cmp);
    if |s| <= 2 * k then t else Passes(t, 2 * k, cmp)
  }

  // The least e with 2^e >= n.
  ghost function CeilLog2(n: nat): (e: nat)
    ensures n <= Power(2, e)
    ensures e > 0 ==> Power(2, e - 1) < n
  {
    LogFrom(n, 0)
  }

  ghost function LogFrom(n: nat, e: nat): (r: nat)
    requires e > 0 ==> Power(2, e - 1) < n
    ensures n <= Power(2, r)
    ensures r > 0 ==> Power(2, r - 1) < n
    decreases n - Power(2, e)
  {
    if n <= Power(2, e) then e else LogFrom(n, e + 1)
  }

  lemma PowersRise(a: nat, b: nat)
    requires a <= b
    ensures Power(2, a) <= Power(2, b)
    decreases b - a
  {
    if a < b { PowersRise(a + 1, b); }
  }

  // CeilLog2 is determined by its bracket.
  lemma CeilLog2Unique(n: nat, e: nat)
    requires n <= Power(2, e)
    requires e > 0 ==> Power(2, e - 1) < n
    ensures e == CeilLog2(n)
  {
    var c := CeilLog2(n);
    if c < e { PowersRise(c, e - 1); }
    if e < c { PowersRise(e, c - 1); }
  }

  // ---- lengths ----

  lemma MergeLength<T>(xs: seq<Node<T>>, ys: seq<Node<T>>, cmp: (T, T) -> int)
    ensures |Merge(xs, ys, cmp)| == |xs| + |ys|
    decreases |xs| + |ys|
  {
  }

  // ---- the same nodes ----

  lemma HeadAndRest<X>(s: seq<X>)
    requires s != []
    ensures multiset(s) == multiset{s[0]} + multiset(s[1..])
  {
    assert s == [s[0]] + s[1..];
  }

  lemma {:induction false} MergeKeepsNodes<T>(xs: seq<Node<T>>, ys: seq<Node<T>>, cmp: (T, T) -> int)
    ensures multiset(Merge(xs, ys, cmp)) == multiset(xs) + multiset(ys)
    decreases |xs| + |ys|
  {
    if xs == [] || ys == [] {
    } else if cmp(xs[0].data, ys[0].data) <= 0 {
      MergeKeepsNodes(xs[1..], ys, cmp);
      HeadAndRest(xs);
      assert Merge(xs, ys, cmp) == [xs[0]] + Merge(xs[1..], ys, cmp);
    } else {
      MergeKeepsNodes(xs, ys[1..], cmp);
      HeadAndRest(ys);
      assert Merge(xs, ys, cmp) == [ys[0]] + Merge(xs, ys[1..], cmp);
    }
  }

  lemma {:induction false} PassKeepsNodes<T>(s: seq<Node<T>>, lo: nat, k: nat, cmp: (T, T) -> int)
    requires k > 0 && lo <= |s|
    ensures multiset(Pass(s, lo, k, cmp)) == multiset(s[lo..])
    decreases |s| - lo
  {
    if lo < |s| {
      var m, r := Min(lo + k, |s|), Min(lo + 2 * k, |s|);
      MergeKeepsNodes(s[lo..m], s[m..r], cmp);
      PassKeepsNodes(s, r, k, cmp);
      ThreeParts(s, lo, m, r);
    }
  }

  lemma ThreeParts<X>(s: seq<X>, lo: nat, m: nat, r: nat)
    requires lo <= m <= r <= |s|
    ensures multiset(s[lo..]) == multiset(s[lo..m]) + multiset(s[m..r]) + multiset(s[r..])
  {
    assert s[lo..] == s[lo..m] + s[m..r] + s[r..];
  }

  // ---- order ----

  lemma {:induction false} MergeSorted<T(!new)>(xs: seq<Node<T>>, ys: seq<Node<T>>, cmp: (T, T) -> int)
    requires TotalPreorder(cmp) && Sorted(xs, cmp) && Sorted(ys, cmp)
    ensures Sorted(Merge(xs, ys, cmp), cmp)
    decreases |xs| + |ys|
  {
    if xs == [] || ys == [] {
    } else if cmp(xs[0].data, ys[0].data) <= 0 {
      MergeSorted(xs[1..], ys, cmp);
      SmallestFirst(xs[0], Merge(xs[1..], ys, cmp), xs[1..], ys, cmp);
    } else {
      MergeSorted(xs, ys[1..], cmp);
      SmallestFirst(ys[0], Merge(xs, ys[1..], cmp), xs, ys[1..], cmp);
    }
  }

  lemma SmallestFirst<T(!new)>(h: Node<T>, t: seq<Node<T>>, xs: seq<Node<T>>, ys: seq<Node<T>>, cmp: (T, T) -> int)
    requires t == Merge(xs, ys, cmp) && Sorted(t, cmp)
    requires forall x :: x in xs ==> cmp(h.data, x.data) <= 0
    requires forall y :: y in ys ==> cmp(h.data, y.data) <= 0
    ensures Sorted([h] + t, cmp)
  {
    MergeKeepsNodes(xs, ys, cmp);
    forall j | 0 <= j < |t|
      ensures cmp(h.data, t[j].data) <= 0
    {
      assert t[j] in multiset(t);
    }
  }

  lemma {:induction false} BlocksOfSuffix<T>(s: seq<Node<T>>, t: seq<Node<T>>, d: nat, lo: nat, k: nat, cmp: (T, T) -> int)
    requires k > 0 && d <= lo && d <= |s| && t == s[d..]
    requires BlocksSorted(t, lo - d, k, cmp)
    ensures BlocksSorted(s, lo, k, cmp)
    decreases |s| - lo
  {
    if lo < |s| {
      assert t[lo - d..Min(lo - d + k, |t|)] == s[lo..Min(lo + k, |s|)];
      BlocksOfSuffix(s, t, d, lo + k, k, cmp);
    }
  }

  // After the pass with run size k every aligned block of 2k nodes is sorted.
  lemma {:induction false} PassDoublesBlocks<T(!new)>(s: seq<Node<T>>, lo: nat, k: nat, cmp: (T, T) -> int)
    requires k > 0 && TotalPreorder(cmp) && lo <= |s| && BlocksSorted(s, lo, k, cmp)
    ensures BlocksSorted(Pass(s, lo, k, cmp), 0, 2 * k, cmp)
    decreases |s| - lo
  {
    if lo < |s| {
      var m, r := Min(lo + k, |s|), Min(lo + 2 * k, |s|);
      var merged, rest := Merge(s[lo..m], s[m..r], cmp), Pass(s, r, k, cmp);
      MergeSorted(s[lo..m], s[m..r], cmp);
      MergeLength(s[lo..m], s[m..r], cmp);
      PassDoublesBlocks(s, r, k, cmp);
      var p := merged + rest;
      assert p[0..Min(2 * k, |p|)] == merged;
      if r < |s| {
        assert p[2 * k..] == rest;
        BlocksOfSuffix(p, rest, 2 * k, 2 * k, 2 * k, cmp);
      }
    }
  }

  lemma {:induction false} PassesSort<T(!new)>(s: seq<Node<T>>, k: nat, cmp: (T, T) -> int)
    requires k > 0 && TotalPreorder(cmp) && BlocksSorted(s, 0, k, cmp)
    ensures Sorted(Passes(s, k, cmp), cmp)
    ensures multiset(Passes(s, k, cmp)) == multiset(s)
    decreases |s| - k
  {
    var t := Pass(s, 0, k, cmp);
    assert s[0..] == s;
    PassDoublesBlocks(s, 0, k, cmp);
    PassKeepsNodes(s, 0, k, cmp);
    if |s| <= 2 * k {
      assert t[0..Min(2 * k, |t|)] == t;
    } else {
      PassesSort(t, 2 * k, cmp);
    }
  }

  lemma {:induction false} SingletonBlocks<T>(s: seq<Node<T>>, lo: nat, cmp: (T, T) -> int)
    ensures BlocksSorted(s, lo, 1, cmp)
    decreases |s| - lo
  {
    if lo < |s| { SingletonBlocks(s, lo + 1, cmp); }
  }

  // ---- stability ----

  lemma {:induction false} WithKeyConcat<T>(a: seq<Node<T>>, b: seq<Node<T>>, g: T, cmp: (T, T) -> int)
    ensures WithKey(a + b, g, cmp) == WithKey(a, g, cmp) + WithKey(b, g, cmp)
  {
    hide SameKey;
    if a == [] {
      assert a + b == b;
    } else {
      WithKeyConcat(a[1..], b, g, cmp);
      var h := if SameKey(a[0].data, g, cmp) then [a[0]] else [];
      assert (a + b)[0] == a[0] && (a + b)[1..] == a[1..] + b;
      assert WithKey(a + b, g, cmp) == h + WithKey(a[1..] + b, g, cmp);
      assert WithKey(a, g, cmp) == h + WithKey(a[1..], g, cmp);
    }
  }

  lemma WithKeySplit<T>(s: seq<Node<T>>, lo: nat, m: nat, r: nat, g: T, cmp: (T, T) -> int)
    requires lo <= m <= r <= |s|
    ensures WithKey(s[lo..], g, cmp) == WithKey(s[lo..m], g, cmp) + WithKey(s[m..r], g, cmp) + WithKey(s[r..], g, cmp)
  {
    assert s[lo..] == (s[lo..m] + s[m..r]) + s[r..];
    WithKeyConcat(s[lo..m] + s[m..r], s[r..], g, cmp);
    WithKeyConcat(s[lo..m], s[m..r], g, cmp);
  }

  lemma {:induction false} NoneWithKey<T>(s: seq<Node<T>>, g: T, cmp: (T, T) -> int)
    requires forall x :: x in s ==> !SameKey(x.data, g, cmp)
    ensures WithKey(s, g, cmp) == []
  {
    if s != [] { NoneWithKey(s[1..], g, cmp); }
  }

  lemma {:induction false} MergeStable<T(!new)>(xs: seq<Node<T>>, ys: seq<Node<T>>, g: T, cmp: (T, T) -> int)
    requires TotalPreorder(cmp) && Sorted(xs, cmp)
    ensures WithKey(Merge(xs, ys, cmp), g, cmp) == WithKey(xs, g, cmp) + WithKey(ys, g, cmp)
    decreases |xs| + |ys|
  {
    if xs != [] && ys != [] {
      if cmp(xs[0].data, ys[0].data) <= 0 {
        MergeStable(xs[1..], ys, g, cmp);
      } else {
        MergeStable(xs, ys[1..], g, cmp);
        if SameKey(ys[0].data, g, cmp) { NoneWithKey(xs, g, cmp); }
      }
    }
  }

  lemma {:induction false} PassStable<T(!new)>(s: seq<Node<T>>, lo: nat, k: nat, g: T, cmp: (T, T) -> int)
    requires k > 0 && TotalPreorder(cmp) && lo <= |s| && BlocksSorted(s, lo, k, cmp)
    ensures WithKey(Pass(s, lo, k, cmp), g, cmp) == WithKey(s[lo..], g, cmp)
    decreases |s| - lo
  {
    hide WithKey, Merge, TotalPreorder;
    if lo < |s| {
      var m, r := Min(lo + k, |s|), Min(lo + 2 * k, |s|);
      MergeStable(s[lo..m], s[m..r], g, cmp);
      PassStable(s, r, k, g, cmp);
      WithKeyConcat(Merge(s[lo..m], s[m..r], cmp), Pass(s, r, k, cmp), g, cmp);
      WithKeySplit(s, lo, m, r, g, cmp);
    } else {
      assert s[lo..] == [];
    }
  }

  lemma {:induction false} PassesStable<T(!new)>(s: seq<Node<T>>, k: nat, g: T, cmp: (T, T) -> int)
    requires k > 0 && TotalPreorder(cmp) && BlocksSorted(s, 0, k, cmp)
    ensures WithKey(Passes(s, k, cmp), g, cmp) == WithKey(s, g, cmp)
    decreases |s| - k
  {
    assert s[0..] == s;
    PassStable(s, 0, k, g, cmp);
    PassDoublesBlocks(s, 0, k, cmp);
    if 2 * k < |s| { PassesStable(Pass(s, 0, k, cmp), 2 * k, g, cmp); }
  }

  // The whole sort: the same nodes, in nondecreasing order, equal keys in their old order.
  lemma SortCorrect<T(!new)>(s: seq<Node<T>>, g: T, cmp: (T, T) -> int)
    requires TotalPreorder(cmp)
    ensures multiset(Passes(s, 1, cmp)) == multiset(s)
    ensures Sorted(Passes(s, 1, cmp), cmp)
    ensures WithKey(Passes(s, 1, cmp), g, cmp) == WithKey(s, g, cmp)
  {
    SingletonBlocks(s, 0, cmp);
    PassesSort(s, 1, cmp);
    PassesStable(s, 1, g, cmp);
  }

  // Spelt out: of two nodes with equal keys the first stays in front of the second.
  lemma SortIsStable<T(!new)>(s: seq<Node<T>>, i: nat, j: nat, cmp: (T, T) -> int)
    requires TotalPreorder(cmp) && i < j < |s| && cmp(s[i].data, s[j].data) <= 0 && cmp(s[j].data, s[i].data) <= 0
    ensures var t := Passes(s, 1, cmp);
      exists p: nat, q: nat :: p < q < |t| && t[p] == s[i] && t[q] == s[j]
  {
    hide Passes, WithKey;
    var g, t := s[i].data, Passes(s, 1, cmp);
    SortCorrect(s, g, cmp);
    var p, q := PlacesWithKey(s, g, cmp, i, j);
    var a, b := PlacesBehindKey(t, g, cmp, p, q);
  }

  lemma {:induction false} PlacesWithKey<T>(s: seq<Node<T>>, g: T, cmp: (T, T) -> int, i: nat, j: nat) returns (p: nat, q: nat)
    requires i < j < |s| && SameKey(s[i].data, g, cmp) && SameKey(s[j].data, g, cmp)
    ensures var w := WithKey(s, g, cmp); p < q < |w| && w[p] == s[i] && w[q] == s[j]
  {
    if i == 0 {
      var k := PlaceWithKey(s[1..], g, cmp, j - 1);
      p, q := 0, k + 1;
    } else {
      p, q := PlacesWithKey(s[1..], g, cmp, i - 1, j - 1);
      if SameKey(s[0].data, g, cmp) { p, q := p + 1, q + 1; }
    }
  }

  lemma {:induction false} PlaceWithKey<T>(s: seq<Node<T>>, g: T, cmp: (T, T) -> int, i: nat) returns (p: nat)
    requires i < |s| && SameKey(s[i].data, g, cmp)
    ensures var w := WithKey(s, g, cmp); p < |w| && w[p] == s[i]
  {
    if i == 0 {
      p := 0;
    } else {
      p := PlaceWithKey(s[1..], g, cmp, i - 1);
      if SameKey(s[0].data, g, cmp) { p := p + 1; }
    }
  }

  lemma {:induction false} PlacesBehindKey<T>(t: seq<Node<T>>, g: T, cmp: (T, T) -> int, p: nat, q: nat) returns (a: nat, b: nat)
    requires p < q < |WithKey(t, g, cmp)|
    ensures var w := WithKey(t, g, cmp); a < b < |t| && t[a] == w[p] && t[b] == w[q]
  {
    if !SameKey(t[0].data, g, cmp) {
      a, b := PlacesBehindKey(t[1..], g, cmp, p, q);
      a, b := a + 1, b + 1;
    } else if p == 0 {
      b := PlaceBehindKey(t[1..], g, cmp, q - 1);
      a, b := 0, b + 1;
    } else {
      a, b := PlacesBehindKey(t[1..], g, cmp, p - 1, q - 1);
      a, b := a + 1, b + 1;
    }
  }

  lemma {:induction false} PlaceBehindKey<T>(t: seq<Node<T>>, g: T, cmp: (T, T) -> int, p: nat) returns (a: nat)
    requires p < |WithKey(t, g, cmp)|
    ensures a < |t| && t[a] == WithKey(t, g, cmp)[p]
  {
    if !SameKey(t[0].data, g, cmp) {
      a := PlaceBehindKey(t[1..], g, cmp, p);
      a := a + 1;
    } else if p == 0 {
      a := 0;
    } else {
      a := PlaceBehindKey(t[1..], g, cmp, p - 1);
      a := a + 1;
    }
  }
}
