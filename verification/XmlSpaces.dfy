/** tinyxml2.cpp: white space in C strings, and the words that remain when it is collapsed. */
module XmlSpaces {
  import opened XmlEntities

  // What a C string that starts with s holds: all up to the first zero.
  function UpToZero(s: string): (r: string)
    ensures |r| <= |s| && NUL !in r
  {
    if s == "" || s[0] == NUL then "" else [s[0]] + UpToZero(s[1..])
  }

  lemma {:induction false} ZeroFree(s: string)
    requires NUL !in s
    ensures UpToZero(s) == s
  {
    if s != "" {
      assert s == [s[0]] + s[1..];
      ZeroFree(s[1..]);
    }
  }

  lemma {:induction false} ZeroBehind(a: string, b: string)
    ensures UpToZero(a + [NUL] + b) == UpToZero(a)
  {
    if a == "" {
      assert a + [NUL] + b == [NUL] + b;
    } else {
      ZeroBehind(a[1..], b);
      assert (a + [NUL] + b)[1..] == a[1..] + [NUL] + b;
    }
  }

  lemma {:induction false} ZeroAt(s: string, n: nat)
    requires n < |s| && s[n] == NUL
    ensures var r := UpToZero(s); |r| <= n && r == s[..|r|] && s[|r|] == NUL
  {
    if s[0] != NUL {
      ZeroAt(s[1..], n - 1);
      assert s[..|UpToZero(s)|] == [s[0]] + s[1..][..|UpToZero(s)| - 1];
    }
  }

  // isspace of the C locale
  predicate Space(c: char) {
    c == ' ' || 9 <= c as int <= 13
  }

  lemma SpaceIs(c: char)
    ensures Space(c) <==> c in " \t\n\r" || c as int == 0xB || c as int == 0xC
  {
  }

  // The first position from i on without a space.
  function SpaceEnd(t: string, i: nat): (r: nat)
    requires i <= |t|
    ensures i <= r <= |t| && (r < |t| ==> !Space(t[r]))
    decreases |t| - i
  {
    if i < |t| && Space(t[i]) then SpaceEnd(t, i + 1) else i
  }

  // ---- words ----

  // The longest runs without a space, in order.
  function Words(t: string): (r: seq<string>)
    ensures t != "" && !Space(t[0]) ==> r != []
  {
    if t == "" then []
    else
      var words := Words(t[1..]);
      if Space(t[0]) then words
      else if |t| == 1 || Space(t[1]) then [[t[0]]] + words
      else [[t[0]] + words[0]] + words[1..]
  }

  function Joined(words: seq<string>): string {
    if words == [] then "" else if |words| == 1 then words[0] else words[0] + " " + Joined(words[1..])
  }

  predicate IsWord(w: string) { w != "" && forall i :: 0 <= i < |w| ==> !Space(w[i]) }

  lemma {:induction false} WordsAreWords(t: string)
    ensures forall k :: 0 <= k < |Words(t)| ==> IsWord(Words(t)[k])
  {
    if t != "" { WordsAreWords(t[1..]); }
  }

  // Joining words with one space between them loses none: no other text without further spaces
  // has the same words.
  lemma {:induction false} WordsOfJoined(words: seq<string>)
    requires forall k :: 0 <= k < |words| ==> IsWord(words[k])
    ensures Words(Joined(words)) == words
  {
    if words != [] {
      WordsOfJoined(words[1..]);
      var rest := if |words| == 1 then "" else " " + Joined(words[1..]);
      WordInFront(words[0], rest);
      SpaceInFront(Joined(words[1..]));
      assert Joined(words) == words[0] + rest;
    }
  }

  lemma {:induction false} WordInFront(w: string, rest: string)
    requires IsWord(w) && (rest == "" || Space(rest[0]))
    ensures Words(w + rest) == [w] + Words(rest)
  {
    var t := w + rest;
    assert t[0] == w[0] && t[1..] == w[1..] + rest;
    if |w| == 1 {
      assert t[1..] == rest && w == [t[0]] && (|t| > 1 ==> t[1] == rest[0]);
    } else {
      WordInFront(w[1..], rest);
      assert ([w[1..]] + Words(rest))[1..] == Words(rest);
      assert t[1] == w[1] && [t[0]] + w[1..] == w;
    }
  }

  lemma SpaceInFront(t: string)
    ensures Words(" " + t) == Words(t)
  {
    assert (" " + t)[1..] == t;
  }

  // ---- collapsing ----

  function Collapsed(t: string): string { Joined(Words(t)) }

  // Collapsing keeps the words, and collapsing again changes nothing.
  lemma CollapsedKeepsWords(t: string)
    ensures Words(Collapsed(t)) == Words(t) && Collapsed(Collapsed(t)) == Collapsed(t)
  {
    hide Words, Joined;
    WordsAreWords(t);
    WordsOfJoined(Words(t));
  }

  // What the loop of CollapseWhitespace still writes when u is left: spaces become one, and those at
  // the end are dropped.
  function Squeezed(u: string): (r: string)
    ensures |r| <= |u|
  {
    if u == "" then ""
    else
      var i := SpaceEnd(u, 0);
      if i == |u| then ""
      else (if i > 0 then " " else "") + [u[i]] + Squeezed(u[i + 1..])
  }

  lemma {:induction false} SpacesBefore(u: string, i: nat)
    requires i <= |u|
    ensures Words(u[i..]) == Words(u[SpaceEnd(u, i)..])
    decreases |u| - i
  {
    hide Words;
    if i < |u| && Space(u[i]) {
      SpacesBefore(u, i + 1);
      assert u[i..] == [u[i]] + u[i + 1..];
      OneSpaceBefore(u[i], u[i + 1..]);
    }
  }

  lemma OneSpaceBefore(c: char, u: string)
    requires Space(c)
    ensures Words([c] + u) == Words(u)
  {
    assert ([c] + u)[1..] == u;
  }

  // What it writes for a text that has been freed of the spaces in front are the words, joined.
  lemma {:induction false} SqueezedIsCollapsed(u: string)
    ensures Squeezed(u) == (if u != "" && Space(u[0]) && Words(u) != [] then " " else "") + Collapsed(u)
    decreases |u|
  {
    hide Words, Collapsed, Squeezed, SpaceEnd;
    NothingToSqueeze();
    if u != "" {
      var i := SpaceEnd(u, 0);
      NextSqueezed(u);
      SameWords(u);
      if i < |u| {
        SqueezedIsCollapsed(u[i + 1..]);
        OneMoreLetter(u[i], u[i + 1..]);
        assert u[i..] == [u[i]] + u[i + 1..];
      } else {
        assert u[i..] == "";
      }
    }
  }

  lemma NothingToSqueeze()
    ensures Squeezed("") == Collapsed("") == "" && Words("") == []
  {
  }

  lemma NextSqueezed(u: string)
    requires u != ""
    ensures var i := SpaceEnd(u, 0);
      && (Space(u[0]) <==> i > 0)
      && Squeezed(u) == if i == |u| then "" else (if i > 0 then " " else "") + [u[i]] + Squeezed(u[i + 1..])
  {
  }

  lemma SameWords(u: string)
    ensures var v := u[SpaceEnd(u, 0)..]; Words(u) == Words(v) && Collapsed(u) == Collapsed(v)
  {
    hide Words;
    assert u[0..] == u;
    SpacesBefore(u, 0);
  }

  lemma OneMoreLetter(c: char, rest: string)
    requires !Space(c)
    ensures Collapsed([c] + rest) == [c] + (if rest != "" && Space(rest[0]) && Words(rest) != [] then " " else "") + Collapsed(rest)
    ensures Words([c] + rest) != []
  {
    assert ([c] + rest)[1..] == rest;
    var words := Words(rest);
    if rest != "" && !Space(rest[0]) {
      assert ([[c] + words[0]] + words[1..])[1..] == words[1..];
    } else {
      assert ([[c]] + words)[1..] == words;
      if rest == "" { assert words == []; }
    }
  }
}
