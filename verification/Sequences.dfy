/** Sequences without repeated elements. */
module Sequences {

  ghost predicate Differ<X>(s: seq<X>, i: nat, j: nat)
    requires i < |s| && j < |s|
  {
    s[i] != s[j]
  }

  // No node twice. (The trigger keeps the verifier from comparing every pair of nodes it meets.)
  ghost predicate Distinct<X>(s: seq<X>) {
    forall i, j {:trigger Differ(s, i, j)} :: 0 <= i < j < |s| ==> Differ(s, i, j)
  }

  lemma DiffersFromOthers<X>(s: seq<X>, k: nat)
    requires Distinct(s) && k < |s|
    ensures forall i {:trigger s[i]} :: 0 <= i < |s| && i != k ==> s[i] != s[k]
  {
    forall i | 0 <= i < |s| && i != k
      ensures s[i] != s[k]
    {
      assert Differ(s, if i < k then i else k, if i < k then k else i);
    }
  }

  lemma Prefix<X>(s: seq<X>, n: nat)
    requires Distinct(s) && n <= |s|
    ensures Distinct(s[..n])
  {
    var t := s[..n];
    forall i, j | 0 <= i < j < n
      ensures Differ(t, i, j)
    {
      assert Differ(s, i, j);
    }
  }

  lemma Inserted<X>(s: seq<X>, at: nat, x: X)
    requires Distinct(s) && x !in s && at <= |s|
    ensures Distinct(s[..at] + [x] + s[at..])
  {
    var t := s[..at] + [x] + s[at..];
    forall i, j | 0 <= i < j < |t|
      ensures Differ(t, i, j)
    {
      var i', j' := if i < at then i else i - 1, if j < at then j else j - 1;
      if i != at && j != at { assert Differ(s, i', j'); }
      if i == at { assert t[j] == s[j'] && t[j] in s; }
      if j == at { assert t[i] == s[i] && t[i] in s; }
    }
  }

  lemma Removed<X>(s: seq<X>, at: nat)
    requires Distinct(s) && at < |s|
    ensures Distinct(s[..at] + s[at + 1..])
  {
    var t := s[..at] + s[at + 1..];
    forall i, j | 0 <= i < j < |t|
      ensures Differ(t, i, j)
    {
      assert Differ(s, if i < at then i else i + 1, if j < at then j else j + 1);
    }
  }

  lemma Appended<X>(s: seq<X>, x: X)
    requires Distinct(s) && x !in s
    ensures Distinct(s + [x])
  {
    var t := s + [x];
    forall i, j | 0 <= i < j < |t|
      ensures Differ(t, i, j)
    {
      if j < |s| { assert Differ(s, i, j); }
    }
  }

  // s without its element at k
  lemma Rest<X>(s: seq<X>, k: nat)
    requires k < |s|
    ensures var rest := s[..k] + s[k + 1..];
      && |rest| == |s| - 1
      && (forall i {:trigger rest[i]} :: 0 <= i < |rest| ==> rest[i] == s[if i < k then i else i + 1])
  {
  }

  lemma RestMembers<X>(s: seq<X>, k: nat)
    requires Distinct(s) && k < |s|
    ensures forall x :: x in s[..k] + s[k + 1..] <==> x in s && x != s[k]
  {
    Rest(s, k);
    DiffersFromOthers(s, k);
    var rest := s[..k] + s[k + 1..];
    forall x | x in s && x != s[k]
      ensures x in rest
    {
      var j :| 0 <= j < |s| && s[j] == x;
      assert rest[if j < k then j else j - 1] == x;
    }
  }
}
