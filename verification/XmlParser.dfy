/** tinyxml2.cpp: string pairs, which mark a piece of the document's memory and convert it there when
    it is asked for, and the attributes made of two of them. */
module XmlParser {
  import opened Options
  import opened XmlEntities
  import opened XmlText
  import opened XmlSpaces
  import opened XmlStrings

  // The tag stands at position k.
  predicate StandsAt(t: string, tag: string, k: nat) {
    k + |tag| <= |t| && t[k..k + |tag|] == tag
  }

  // ... and nowhere before.
  ghost predicate FirstAt(t: string, tag: string, k: nat) {
    StandsAt(t, tag, k) && forall i: nat :: i < k ==> !StandsAt(t, tag, i)
  }

  function LineFeeds(t: string): nat {
    if t == "" then 0 else LineFeeds(t[..|t| - 1]) + if t[|t| - 1] == LF then 1 else 0
  }

  // A C string from p on: its final zero is at position zero.
  ghost predicate CString(mem: array<char>, p: nat, zero: nat)
    reads mem
  {
    p <= zero < mem.Length && mem[zero] == NUL && forall k :: p <= k < zero ==> mem[k] != NUL
  }

  // The C string that GetStr makes of a piece of markup.
  function Result(t: string, entities: bool, newlines: bool, collapse: bool): string {
    var text := UpToZero(Converted(t, 0, 0, entities, newlines));
    if collapse then Collapsed(text) else text
  }

  class StrPair {
    const mem: array<char>
    var start: nat
    var end: nat
    var needsFlush: bool
    var entities: bool
    var newlines: bool
    var collapse: bool

    constructor (mem: array<char>)
      ensures this.mem == mem && start == end == 0 && !needsFlush
    {
      this.mem, start, end := mem, 0, 0;
      needsFlush, entities, newlines, collapse := false, false, false, false;
    }

    // ParseText: up to the end tag, which has to come before the end of the text.
    method ParseText(p: nat, endTag: string, entities: bool, newlines: bool, collapse: bool, lines: int, ghost zero: nat)
      returns (next: Option<nat>, lines': int)
      requires endTag != "" && NUL !in endTag && CString(mem, p, zero)
      modifies this
      ensures next.None? ==> (forall i: nat :: !StandsAt(mem[p..zero], endTag, i)) && lines' == lines + LineFeeds(mem[p..zero])
      ensures next.Some? ==>
        && start == p && p <= end && next.value == end + |endTag| <= zero && FirstAt(mem[p..zero], endTag, end - p)
        && needsFlush && this.entities == entities && this.newlines == newlines && this.collapse == collapse
        && lines' == lines + LineFeeds(mem[p..end])
    {
      hide *;
      InText(mem, p, zero);
      ghost var t := mem[p..zero];
      var i := p;
      lines' := lines;
      NoLines(t);
      while mem[i] != NUL
        invariant p <= i <= zero && lines' == lines + LineFeeds(t[..i - p])
        invariant forall k: nat :: k < i - p ==> !StandsAt(t, endTag, k)
        decreases zero - i
      {
        TagInText(mem, p, zero, i, endTag);
        OneMoreChar(t, i - p);
        // strncmp, which does not go beyond the zero
        if i + |endTag| <= mem.Length && mem[i..i + |endTag|] == endTag {
          FirstTag(t, endTag, i - p);
          assert t[..i - p] == mem[p..i];
          start, end := p, i;
          needsFlush, this.entities, this.newlines, this.collapse := true, entities, newlines, collapse;
          return Some(i + |endTag|), lines';
        } else if mem[i] == LF {
          lines' := lines' + 1;
        }
        i := i + 1;
      }
      NoTagAtEnd(t, endTag, i - p);
      assert t[..i - p] == t;
      next := None;
    }

    // GetStr: the text up to end is converted in place, the write pointer never passing the read
    // pointer, and a zero is put behind it; a second call finds nothing to do.
    method GetStr() returns (r: nat)
      requires start <= end < mem.Length && (needsFlush ==> NUL !in mem[start..end])
      modifies this, mem
      ensures r == start && end == old(end) && !needsFlush
      ensures old(needsFlush) ==>
        && old(start) <= start <= end
        && UpToZero(mem[start..]) == Result(old(mem[start..end]), old(entities), old(newlines), old(collapse))
        && forall k :: 0 <= k < mem.Length && !(old(start) <= k <= end) ==> mem[k] == old(mem[k])
      ensures !old(needsFlush) ==> start == old(start) && mem[..] == old(mem[..])
    {
      hide *;
      if needsFlush {
        ghost var t := mem[start..end];
        ghost var text := Flush();
        ResultIs(t, entities, newlines, collapse);
        if collapse { CollapseWhitespace(start + |UpToZero(text)|); }
        entities, newlines, collapse := false, false, false;
      }
      r := start;
    }

    // The first half of GetStr, which puts a zero behind the text and converts it.
    method Flush() returns (ghost text: string)
      requires start <= end < mem.Length && NUL !in mem[start..end]
      modifies this`needsFlush, mem
      ensures !needsFlush && text == Converted(old(mem[start..end]), 0, 0, entities, newlines)
      ensures var r := UpToZero(text);
        && start + |r| <= end && UpToZero(mem[start..]) == r == mem[start..start + |r|] && CString(mem, start, start + |r|)
      ensures forall k :: 0 <= k < mem.Length && !(start <= k <= end) ==> mem[k] == old(mem[k])
    {
      hide *;
      text := mem[start..end];
      mem[end] := NUL;
      needsFlush := false;
      NothingFlagged(text);
      assert mem[start..end] == text;
      if entities || newlines || collapse { text := Convert(text); }
      TextAt(mem, start, text);
    }

    // CollapseWhitespace, with the final zero of the text at position zero.
    method CollapseWhitespace(ghost zero: nat)
      requires CString(mem, start, zero)
      modifies this`start, mem
      ensures old(start) <= start <= zero && UpToZero(mem[start..]) == Collapsed(old(mem[start..zero]))
      ensures forall k :: 0 <= k < mem.Length && !(old(start) <= k <= zero) ==> mem[k] == old(mem[k])
    {
      hide *;
      InText(mem, start, zero);
      ghost var was := mem[start..zero];
      FreedOfSpaces(was);
      var lines;
      start, lines := SkipWhiteSpace(mem, start, 0, start, zero);
      assert mem[start..zero] == was[SpaceEnd(was, 0)..];
      ghost var text := "";
      if mem[start] == NUL {
        NothingLeft(mem[start..zero]);
      } else {
        IsCString(mem, start, zero);
        text := CollapseFrom(zero);
      }
      EndsAtZero(mem[start..], text);
    }

    // The loop of CollapseWhitespace.
    method CollapseFrom(ghost zero: nat) returns (ghost text: string)
      requires CString(mem, start, zero)
      modifies mem
      ensures text == Squeezed(old(mem[start..zero])) && NUL !in text
      ensures start + |text| <= zero < mem.Length && mem[start..start + |text|] == text && mem[start + |text|] == NUL
      ensures forall k :: 0 <= k < mem.Length && !(start <= k <= zero) ==> mem[k] == old(mem[k])
    {
      hide *;
      ghost var before := mem[..];
      var p, q := start, start;
      text := "";
      InText(mem, start, zero);
      StartCollapsing(before, start, zero);
      while mem[p] != NUL
        invariant start <= q <= p <= zero && Collapsing(before, mem[..], start, zero, p, q, text)
        decreases zero - p
      {
        LeftToCollapse(before, mem[..], start, zero, p, q, text);
        p, q, text := CollapseTurn(before, p, q, zero, text);
      }
      LeftToCollapse(before, mem[..], start, zero, p, q, text);
      AllCollapsed(before, mem[..], start, zero, q, text);
      mem[q] := NUL;
    }

    // One turn of it: the spaces, and the character behind them, when there is one.
    method CollapseTurn(ghost before: string, p: nat, q: nat, ghost zero: nat, ghost text: string)
      returns (p': nat, q': nat, ghost text': string)
      requires start <= q <= p < zero < mem.Length && Collapsing(before, mem[..], start, zero, p, q, text)
      modifies mem
      ensures p < p' && start <= q' <= p' <= zero && Collapsing(before, mem[..], start, zero, p', q', text')
    {
      hide *;
      ghost var m := mem[..];
      LeftToCollapse(before, m, start, zero, p, q, text);
      IsCString(mem, p, zero);
      OneStep(m[p..zero]);
      assert mem[p..zero] == m[p..zero];
      p', q', text' := p, q, text;
      if Space(mem[p]) {
        var lines;
        p', lines := SkipWhiteSpace(mem, p, 0, p, zero);
        if mem[p'] == NUL {
          OnlySpaces(before, m, start, zero, p, q, text);
          return;
        }
        mem[q] := ' ';
        q' := q + 1;
      }
      mem[q'] := mem[p'];
      text' := CollapseOne(before, m, start, zero, p, q, text, p', mem[..]);
      p', q' := p' + 1, q' + 1;
    }

    // The loop of GetStr: p reads and q writes.
    method Convert(ghost t: string) returns (ghost text: string)
      requires start <= end < mem.Length && t == mem[start..end] && mem[end] == NUL
      modifies mem
      ensures text == Converted(t, 0, 0, entities, newlines)
      ensures start + |text| <= end && mem[start..start + |text|] == text && mem[start + |text|] == NUL
      ensures forall k :: 0 <= k < mem.Length && !(start <= k <= end) ==> mem[k] == old(mem[k])
    {
      hide *;
      var p, q := start, start;
      text := "";
      ghost var before := mem[..];
      NothingConverted(before, t, start, end, entities, newlines);
      while p < end
        invariant start <= q <= p <= end
        invariant Underway(before, mem[..], t, start, end, p, q, text, entities, newlines)
        decreases end - p
      {
        ghost var m := mem[..];
        RestIsThere(before, m, t, start, end, p, q, text, entities, newlines);
        assert mem[p..end] == m[p..end];
        var piece := Look(mem[p..end], entities, newlines);
        PieceFits(mem[p..end], entities, newlines);
        if piece.written.Bytes? { WriteAt(q, piece.written.s); }
        text := OnePiece(before, m, t, start, end, p, q, text, entities, newlines, piece, mem[..]);
        p := p + piece.read;
        q := q + WrittenLength(piece.written);
      }
      AllConverted(before, mem[..], t, start, end, q, text, entities, newlines);
      mem[q] := NUL;
    }

    // The assignments through the write pointer.
    method WriteAt(q: nat, s: string)
      requires q + |s| <= mem.Length
      modifies mem
      ensures mem[..] == Overwritten(old(mem[..]), q, s)
    {
      var j := 0;
      while j < |s|
        invariant 0 <= j <= |s| && mem[..] == Overwritten(old(mem[..]), q, s[..j])
      {
        mem[q + j] := s[j];
        j := j + 1;
      }
      assert s[..j] == s;
    }
  }

  // SkipWhiteSpace, which counts the line feeds it passes.
  method SkipWhiteSpace(mem: array<char>, p: nat, lines: int, ghost from: nat, ghost zero: nat) returns (i: nat, lines': int)
    requires CString(mem, from, zero) && from <= p <= zero
    ensures p <= i <= zero && i == from + SpaceEnd(mem[from..zero], p - from)
    ensures lines' - LineFeeds(mem[from..zero][..i - from]) == lines - LineFeeds(mem[from..zero][..p - from])
  {
    hide LineFeeds;
    ghost var t := mem[from..zero];
    i, lines' := p, lines;
    while Space(mem[i])
      invariant p <= i <= zero && SpaceEnd(t, p - from) == SpaceEnd(t, i - from)
      invariant lines' - LineFeeds(t[..i - from]) == lines - LineFeeds(t[..p - from])
      decreases zero - i
    {
      OneMoreChar(t, i - from);
      if mem[i] == LF { lines' := lines' + 1; }
      i := i + 1;
    }
  }

  function Overwritten(m: string, q: nat, s: string): (r: string)
    requires q + |s| <= |m|
    ensures |r| == |m|
  {
    m[..q] + s + m[q + |s|..]
  }

  // The memory when the loop of GetStr writes at q: the text so far, then what was there from q on.
  ghost predicate InMemory(before: string, m: string, start: nat, q: nat, text: string) {
    && start <= q <= |m| == |before| && |text| == q - start
    && m == before[..start] + text + before[q..]
  }

  // The markup t is what the memory held from start to end.
  ghost predicate Markup(before: string, t: string, start: nat, end: nat) {
    start <= end < |before| && t == before[start..end] && before[end] == NUL
  }

  // The text so far and what is still to come make up the whole text.
  ghost predicate HalfConverted(t: string, p: nat, q: nat, text: string, entities: bool, newlines: bool) {
    q <= p <= |t| && text + Converted(t, p, q, entities, newlines) == Converted(t, 0, 0, entities, newlines)
  }

  ghost predicate Underway(before: string, m: string, t: string, start: nat, end: nat, p: nat, q: nat, text: string,
                           entities: bool, newlines: bool)
  {
    && start <= q <= p <= end && |t| == end - start && |m| == |before|
    && Markup(before, t, start, end) && InMemory(before, m, start, q, text)
    && HalfConverted(t, p - start, q - start, text, entities, newlines)
  }

  lemma NothingConverted(before: string, t: string, start: nat, end: nat, entities: bool, newlines: bool)
    requires start <= end < |before| && t == before[start..end] && before[end] == NUL
    ensures Underway(before, before, t, start, end, start, start, "", entities, newlines)
  {
    hide Converted;
    assert before == before[..start] + "" + before[start..];
  }

  lemma RestIsThere(before: string, m: string, t: string, start: nat, end: nat, p: nat, q: nat, text: string, entities: bool, newlines: bool)
    requires Underway(before, m, t, start, end, p, q, text, entities, newlines)
    ensures m[p..end] == t[p - start..] && end < |m|
  {
    hide HalfConverted;
    Window(before, start, end, p, end);
  }

  lemma PieceFits(u: string, entities: bool, newlines: bool)
    requires u != ""
    ensures var piece := NextPiece(u, entities, newlines);
      && 0 < piece.read <= |u| && WrittenLength(piece.written) <= piece.read
      && (piece.written.Bytes? ==> WrittenLength(piece.written) == |piece.written.s|)
      && (piece.written.Kept? ==> WrittenLength(piece.written) == 1)
  {
    hide NextPiece;
    PieceShrinks(u, entities, newlines);
  }

  lemma OnePiece(before: string, m: string, t: string, start: nat, end: nat, p: nat, q: nat, text: string,
                 entities: bool, newlines: bool, piece: Piece, m': string) returns (text': string)
    requires Underway(before, m, t, start, end, p, q, text, entities, newlines) && p < end
    requires piece == NextPiece(t[p - start..], entities, newlines)
    requires piece.written.Kept? ==> m' == m
    requires piece.written.Bytes? ==> q + |piece.written.s| <= |m| && m' == Overwritten(m, q, piece.written.s)
    ensures Underway(before, m', t, start, end, p + piece.read, q + WrittenLength(piece.written), text', entities, newlines)
  {
    hide HalfConverted, InMemory, Markup, NextPiece, Overwritten, WrittenLength;
    RestIsThere(before, m, t, start, end, p, q, text, entities, newlines);
    PieceFits(t[p - start..], entities, newlines);
    var here := if piece.written.Kept? then [t[q - start]] else piece.written.s;
    text' := text + here;
    HalfOn(t, p - start, q - start, text, entities, newlines, here);
    if piece.written.Kept? { KeptIsThere(before, t, start, end, q); }
    Spliced(before, m, start, q, text, here, m');
  }

  lemma HalfOn(t: string, p: nat, q: nat, text: string, entities: bool, newlines: bool, here: string)
    requires HalfConverted(t, p, q, text, entities, newlines) && p < |t|
    requires var piece := NextPiece(t[p..], entities, newlines); here == if piece.written.Kept? then [t[q]] else piece.written.s
    ensures var piece := NextPiece(t[p..], entities, newlines);
      && |here| == WrittenLength(piece.written)
      && HalfConverted(t, p + piece.read, q + |here|, text + here, entities, newlines)
  {
    hide Converted, NextPiece, WrittenLength;
    HereLength(t[p..], entities, newlines, here);
    var piece := NextPiece(t[p..], entities, newlines);
    HereIsConverted(t, p, q, entities, newlines, here, p + piece.read, q + |here|);
    Joined(text, here, Converted(t, p + piece.read, q + |here|, entities, newlines));
  }

  lemma HereIsConverted(t: string, p: nat, q: nat, entities: bool, newlines: bool, here: string, p': nat, q': nat)
    requires q <= p < |t|
    requires var piece := NextPiece(t[p..], entities, newlines);
      && p' == p + piece.read && q' == q + WrittenLength(piece.written)
      && here == if piece.written.Kept? then [t[q]] else piece.written.s
    ensures q' <= p' <= |t| && Converted(t, p, q, entities, newlines) == here + Converted(t, p', q', entities, newlines)
  {
    hide *;
    OneRound(t, p, q, entities, newlines);
  }

  lemma HereLength(u: string, entities: bool, newlines: bool, here: string)
    requires u != ""
    requires var written := NextPiece(u, entities, newlines).written; if written.Kept? then |here| == 1 else here == written.s
    ensures |here| == WrittenLength(NextPiece(u, entities, newlines).written)
  {
    hide NextPiece;
    PieceFits(u, entities, newlines);
  }

  lemma KeptIsThere(before: string, t: string, start: nat, end: nat, q: nat)
    requires Markup(before, t, start, end) && start <= q < end
    ensures before[q..q + 1] == [t[q - start]]
  {
  }

  // Writing behind the text so far, or passing over what is there.
  lemma Spliced(before: string, m: string, start: nat, q: nat, text: string, here: string, m': string)
    requires InMemory(before, m, start, q, text) && q + |here| <= |m|
    requires m' == Overwritten(m, q, here) || (m' == m && before[q..q + |here|] == here)
    ensures |m'| == |m| && InMemory(before, m', start, q + |here|, text + here)
  {
    assert before[q..] == before[q..q + |here|] + before[q + |here|..];
  }

  lemma AllConverted(before: string, m: string, t: string, start: nat, end: nat, q: nat, text: string, entities: bool, newlines: bool)
    requires Underway(before, m, t, start, end, end, q, text, entities, newlines)
    ensures text == Converted(t, 0, 0, entities, newlines) && q == start + |text| <= end < |m| == |before|
    ensures m[start..q] == text && forall k :: 0 <= k < |m| && !(start <= k <= end) ==> m[k] == before[k]
  {
    NoRound(t, q - start, entities, newlines);
    hide Converted;
    assert text + "" == text;
  }

  // ---- collapsing in place ----

  // CollapseWhitespace in its loop: the text so far stands in front of q, and what is still written
  // from p on makes it the whole.
  ghost predicate Collapsing(before: string, m: string, start: nat, zero: nat, p: nat, q: nat, text: string) {
    && start <= q <= p <= zero < |m| == |before| && before[zero] == NUL && NUL !in before[start..zero]
    && m[..start] == before[..start] && m[start..q] == text && m[p..] == before[p..] && NUL !in text
    && text + Squeezed(before[p..zero]) == Squeezed(before[start..zero])
  }

  lemma StartCollapsing(before: string, start: nat, zero: nat)
    requires start <= zero < |before| && before[zero] == NUL && NUL !in before[start..zero]
    ensures Collapsing(before, before, start, zero, start, start, "")
  {
    hide Squeezed;
  }

  lemma LeftToCollapse(before: string, m: string, start: nat, zero: nat, p: nat, q: nat, text: string)
    requires Collapsing(before, m, start, zero, p, q, text)
    ensures start <= q <= p <= zero < |m| == |before| && m[zero] == NUL && (forall k :: p <= k < zero ==> m[k] != NUL)
    ensures m[p..zero] == before[p..zero] && m[p] == before[p] && m[p..][0] == m[p]
  {
    hide Squeezed;
    assert forall k :: start <= k < zero ==> before[k] == before[start..zero][k - start];
    assert forall k :: p <= k < |m| ==> m[k] == m[p..][k - p] && before[k] == before[p..][k - p];
  }

  // Only spaces are left, and they are dropped.
  lemma OnlySpaces(before: string, m: string, start: nat, zero: nat, p: nat, q: nat, text: string)
    requires Collapsing(before, m, start, zero, p, q, text) && SpaceEnd(before[p..zero], 0) == zero - p
    ensures Collapsing(before, m, start, zero, zero, q, text)
  {
    assert before[zero..zero] == "";
    assert m[zero..] == m[p..][zero - p..] && before[zero..] == before[p..][zero - p..];
    hide SpaceEnd;
  }

  // One character more, behind one space for all those in front of it.
  lemma CollapseOne(before: string, m: string, start: nat, zero: nat, p: nat, q: nat, text: string, i: nat, m': string)
    returns (text': string)
    requires Collapsing(before, m, start, zero, p, q, text) && p <= i < zero && i == p + SpaceEnd(before[p..zero], 0)
    requires m' == if p < i then m[q := ' '][q + 1 := before[i]] else m[q := before[i]]
    ensures Collapsing(before, m', start, zero, i + 1, q + if p < i then 2 else 1, text')
  {
    var here := if p < i then [' ', before[i]] else [before[i]];
    text' := text + here;
    LeftToCollapse(before, m, start, zero, p, q, text);
    SameRest(before, m, p, i);
    SqueezeOne(before, p, zero, i, here);
    hide SpaceEnd, Squeezed;
    Joined(text, here, Squeezed(before[i + 1..zero]));
    InPlace(before, m, start, p, q, i, here, m');
  }

  lemma SqueezeOne(before: string, p: nat, zero: nat, i: nat, here: string)
    requires p <= i < zero <= |before| && i == p + SpaceEnd(before[p..zero], 0) && before[i] != NUL
    requires here == if p < i then [' ', before[i]] else [before[i]]
    ensures Squeezed(before[p..zero]) == here + Squeezed(before[i + 1..zero]) && NUL !in here
  {
    hide SpaceEnd, Squeezed;
    var u := before[p..zero];
    NextSqueezed(u);
    Window(before, p, zero, i + 1, zero);
    assert before[i] == u[i - p] && u[i - p + 1..] == before[i + 1..zero];
    assert " " + [before[i]] == [' ', before[i]];
  }

  lemma SameRest(before: string, m: string, p: nat, i: nat)
    requires p <= i < |m| == |before| && m[p..] == before[p..]
    ensures m[i] == before[i]
  {
    assert m[i] == m[p..][i - p] && before[i] == before[p..][i - p];
  }

  lemma InPlace(before: string, m: string, start: nat, p: nat, q: nat, i: nat, here: string, m': string)
    requires start <= q <= p <= i < |m| == |before| && m[..start] == before[..start] && m[p..] == before[p..]
    requires here == if p < i then [' ', before[i]] else [before[i]]
    requires m' == if p < i then m[q := ' '][q + 1 := before[i]] else m[q := before[i]]
    ensures q + |here| <= i + 1 <= |m'| == |m| && m'[..start] == before[..start]
    ensures m'[start..q + |here|] == m[start..q] + here && m'[i + 1..] == before[i + 1..]
  {
    assert m'[i + 1..] == m[p..][i + 1 - p..];
  }

  lemma FreedOfSpaces(t: string)
    ensures Squeezed(t[SpaceEnd(t, 0)..]) == Collapsed(t)
  {
    hide Words, Collapsed, Squeezed;
    SameWords(t);
    SqueezedIsCollapsed(t[SpaceEnd(t, 0)..]);
  }

  lemma AllCollapsed(before: string, m: string, start: nat, zero: nat, q: nat, text: string)
    requires Collapsing(before, m, start, zero, zero, q, text)
    ensures text == Squeezed(before[start..zero]) && start + |text| == q <= zero < |m| == |before|
    ensures m[start..q] == text && m[zero] == NUL && m[..start] == before[..start] && m[zero..] == before[zero..] && NUL !in text
  {
    assert before[zero..zero] == "" && text + "" == text && m[zero] == m[zero..][0] && before[zero..][0] == before[zero];
  }

  lemma OneStep(u: string)
    requires u != ""
    ensures Space(u[0]) <==> SpaceEnd(u, 0) > 0
  {
  }

  lemma IsCString(mem: array<char>, p: nat, zero: nat)
    requires p <= zero < mem.Length && mem[zero] == NUL && forall k :: p <= k < zero ==> mem[k] != NUL
    ensures CString(mem, p, zero)
  {
  }

  // The C string in front of the first zero of the text, or of the one behind it.
  lemma EndsAtZero(s: string, text: string)
    requires |text| < |s| && s[..|text|] == text && s[|text|] == NUL
    ensures var r := UpToZero(s);
      r == UpToZero(text) && |r| <= |text| && r == s[..|r|] && s[|r|] == NUL && (NUL !in text ==> r == text)
  {
    assert s == text + [NUL] + s[|text| + 1..];
    ZeroBehind(text, s[|text| + 1..]);
    ZeroAt(s, |text|);
    if NUL !in text { ZeroFree(text); }
  }

  lemma NothingLeft(u: string)
    requires u == ""
    ensures Squeezed(u) == ""
  {
  }

  lemma ResultIs(t: string, entities: bool, newlines: bool, collapse: bool)
    ensures var text := UpToZero(Converted(t, 0, 0, entities, newlines));
      Result(t, entities, newlines, collapse) == if collapse then Collapsed(text) else text
  {
  }

  // Where the memory holds a text and a zero behind it, there is the C string of the text.
  lemma TextAt(mem: array<char>, start: nat, text: string)
    requires start + |text| < mem.Length && mem[start..start + |text|] == text && mem[start + |text|] == NUL
    ensures var r := UpToZero(text);
      |r| <= |text| && UpToZero(mem[start..]) == r && mem[start..start + |r|] == r && CString(mem, start, start + |r|)
  {
    hide UpToZero;
    EndsAtZero(mem[start..], text);
    var r := UpToZero(text);
    assert mem[start..start + |r|] == mem[start..][..|r|];
    assert forall k :: start <= k < start + |r| ==> mem[k] == r[k - start];
  }

  lemma NothingFlagged(t: string)
    ensures Converted(t, 0, 0, false, false) == t
  {
    KeptAsItIs(t, 0);
  }

  lemma {:induction false} KeptAsItIs(t: string, p: nat)
    requires p <= |t|
    ensures Converted(t, p, p, false, false) == t[p..]
    decreases |t| - p
  {
    hide Converted;
    NoRound(t, p, false, false);
    if p < |t| {
      OneRound(t, p, p, false, false);
      KeptAsItIs(t, p + 1);
    }
  }

  lemma NoLines(t: string)
    ensures LineFeeds(t[..0]) == 0
  {
  }

  lemma OneMoreChar(t: string, i: nat)
    requires i < |t|
    ensures LineFeeds(t[..i + 1]) == LineFeeds(t[..i]) + if t[i] == LF then 1 else 0
  {
    assert t[..i + 1][..i] == t[..i];
  }

  lemma InText(mem: array<char>, p: nat, zero: nat)
    requires CString(mem, p, zero)
    ensures p <= zero < mem.Length && mem[zero] == NUL && forall k :: p <= k < zero ==> mem[k] != NUL && mem[p..zero][k - p] == mem[k]
  {
  }

  lemma FirstTag(t: string, tag: string, i: nat)
    requires StandsAt(t, tag, i) && forall k: nat :: k < i ==> !StandsAt(t, tag, k)
    ensures FirstAt(t, tag, i) && i + |tag| <= |t|
  {
  }

  lemma NoTagAtEnd(t: string, tag: string, i: nat)
    requires i == |t| && tag != "" && forall k: nat :: k < i ==> !StandsAt(t, tag, k)
    ensures forall k: nat :: !StandsAt(t, tag, k)
  {
  }

  lemma TagInText(mem: array<char>, p: nat, zero: nat, i: nat, tag: string)
    requires CString(mem, p, zero) && p <= i <= zero && tag != "" && NUL !in tag
    ensures (i + |tag| <= mem.Length && mem[i..i + |tag|] == tag) <==> StandsAt(mem[p..zero], tag, i - p)
  {
    assert forall k :: 0 <= k < |tag| ==> tag[k] != NUL;
    if zero < i + |tag| <= mem.Length { assert mem[i..i + |tag|][zero - i] == NUL; }
    if i + |tag| <= zero { Window(mem[..], p, zero, i, i + |tag|); }
  }

  lemma Window(s: string, p: nat, zero: nat, i: nat, j: nat)
    requires p <= i <= j <= zero <= |s|
    ensures s[p..zero][i - p..j - p] == s[i..j]
    ensures j == zero ==> s[p..zero][i - p..] == s[i..j]
  {
    var a, b := s[p..zero][i - p..j - p], s[i..j];
    forall k | 0 <= k < |a|
      ensures a[k] == b[k]
    {
    }
    assert j == zero ==> s[p..zero][i - p..] == a;
  }

  lemma Joined(a: string, b: string, c: string)
    ensures a + (b + c) == a + b + c
  {
  }

  // One round of the loop of GetStr: what is read at p and what it stands for.
  method Look(u: string, entities: bool, newlines: bool) returns (piece: Piece)
    requires u != ""
    ensures piece == NextPiece(u, entities, newlines)
  {
    hide CharacterRef, FindEntity;
    if newlines && u[0] == CR {
      return Piece(if At(u, 1) == LF then 2 else 1, Bytes([LF]));
    } else if newlines && u[0] == LF {
      return Piece(if At(u, 1) == CR then 2 else 1, Bytes([LF]));
    } else if entities && u[0] == '&' {
      if At(u, 1) == '#' {
        var adjusted := GetCharacterRef(u);
        if adjusted.NoReference? { return Piece(1, Bytes([u[0]])); }
        return Piece(adjusted.read, Bytes(adjusted.bytes));
      }
      var i := MatchEntity(u);
      if i < 5 { return Piece(|ENTITIES[i].pattern| + 2, Bytes([ENTITIES[i].value])); }
      return Piece(1, Kept);
    }
    piece := Piece(1, Bytes([u[0]]));
  }
}
