/** What a piece of markup means, by sections 4.1 and 4.6 of XML 1.0 (Fifth Edition) and the line ends
    that tinyxml2.cpp announces, and why misreading a reference makes a text shorter than that. */
module XmlMeaning {
  import opened Options
  import opened XmlEntities
  import opened XmlReferences

  // What a piece of markup means and how long it is: an entity of the table its character, a
  // reference the character it denotes, any other & itself.
  datatype Meaning = Meaning(read: nat, text: string)

  predicate Named(u: string, name: string) {
    |u| >= |name| + 2 && u[0] == '&' && u[1..|name| + 1] == name && u[|name| + 1] == ';'
  }

  // The five entities that need no declaration.
  function NamedEntity(u: string): (m: Option<Meaning>)
    ensures m.Some? ==> 4 <= m.value.read <= |u|
  {
    if Named(u, "quot") then Some(Meaning(6, "\""))
    else if Named(u, "amp") then Some(Meaning(5, "&"))
    else if Named(u, "apos") then Some(Meaning(6, "'"))
    else if Named(u, "lt") then Some(Meaning(4, "<"))
    else if Named(u, "gt") then Some(Meaning(4, ">"))
    else None
  }

  // They are the ones of the table.
  lemma NamedIsFound(u: string)
    requires At(u, 0) == '&'
    ensures var i := FindEntity(u, 0);
      NamedEntity(u) == if i < 5 then Some(Meaning(|ENTITIES[i].pattern| + 2, [ENTITIES[i].value])) else None
  {
    forall i | 0 <= i < 5
      ensures IsEntity(u, ENTITIES[i]) <==> Named(u, ENTITIES[i].pattern)
    {
    }
    var i := FindEntity(u, 0);
    hide FindEntity, IsEntity, Named;
    assert ENTITIES[0].pattern == "quot" && ENTITIES[1].pattern == "amp" && ENTITIES[2].pattern == "apos";
    assert ENTITIES[3].pattern == "lt" && ENTITIES[4].pattern == "gt";
  }

  function MeaningOf(u: string, entities: bool, newlines: bool): (m: Meaning)
    requires u != ""
    ensures 1 <= m.read <= |u|
  {
    if newlines && u[0] == CR then Meaning(if At(u, 1) == LF then 2 else 1, [LF])
    else if newlines && u[0] == LF then Meaning(if At(u, 1) == CR then 2 else 1, [LF])
    else if entities && IsProper(u) then Meaning(ReferenceEnd(u) + 1, Utf8(ReferenceNumber(u)))
    else if entities && NamedEntity(u).Some? then NamedEntity(u).value
    else Meaning(1, [u[0]])
  }

  function Meant(t: string, p: nat, entities: bool, newlines: bool): string
    requires p <= |t|
    decreases |t| - p
  {
    if p == |t| then ""
    else
      var m := MeaningOf(t[p..], entities, newlines);
      m.text + Meant(t, p + m.read, entities, newlines)
  }

  // GetCharacterRef takes something for a reference that is none: an & and # at the end of the text,
  // a number without digits, characters between the &# and the digits, or a number of no character.
  predicate Misread(u: string, entities: bool) {
    entities && At(u, 0) == '&' && At(u, 1) == '#' && CharacterRef(u).Reference? && !IsProper(u)
  }

  // In front of the first semicolon there are digits, or nothing, behind a # or, after &#x, an x.
  ghost predicate EndsInDigits(u: string) {
    exists s, e ::
      && First(u) - 1 <= s < e < |u| && u[s] == Stop(Base(u)) && u[e] == ';'
      && NoSemicolon(u, First(u), e) && AllDigits(u[s + 1..e], Base(u))
  }

  // So much can be seen without reading: what is misread is a final &#, or starts with &#, ends in
  // digits like a reference, and denotes no character.
  lemma MisreadIff(u: string, entities: bool)
    requires NUL !in u
    ensures Misread(u, entities) <==>
      (entities && |u| >= 2 && u[0] == '&' && u[1] == '#' && !IsProper(u) && (|u| == 2 || EndsInDigits(u)))
  {
    hide CharacterRef, IsProper, EndsInDigits, AllDigits;
    if |u| >= 2 && u[0] == '&' && u[1] == '#' {
      if |u| == 2 {
        NothingWritten(u);
      } else {
        TakenIff(u);
      }
    }
  }

  lemma TakenIff(u: string)
    requires NUL !in u && |u| > 2 && u[0] == '&' && u[1] == '#'
    ensures CharacterRef(u).Reference? <==> EndsInDigits(u)
  {
    hide CharacterRef, Denoted, AllDigits, NoSemicolon;
    if CharacterRef(u).Reference? {
      var s, e, w := WhatIsRead(u);
    }
    if EndsInDigits(u) {
      var s, e :|
        && First(u) - 1 <= s < e < |u| && u[s] == Stop(Base(u)) && u[e] == ';'
        && NoSemicolon(u, First(u), e) && AllDigits(u[s + 1..e], Base(u));
      DigitsAreTaken(u, s, e);
    }
  }

  lemma OneMeant(t: string, p: nat, entities: bool, newlines: bool)
    requires p < |t|
    ensures var m := MeaningOf(t[p..], entities, newlines);
      p + m.read <= |t| && Meant(t, p, entities, newlines) == m.text + Meant(t, p + m.read, entities, newlines)
  {
    hide MeaningOf;
  }

  lemma NothingMeant(t: string, entities: bool, newlines: bool)
    ensures Meant(t, |t|, entities, newlines) == ""
  {
  }

  lemma StartsLikeReference(u: string)
    requires IsReference(u)
    ensures |u| > 3 && u[0] == '&' && u[1] == '#'
  {
  }

  lemma NoEntityHere(u: string)
    requires At(u, 0) == '&' && At(u, 1) == '#'
    ensures FindEntity(u, 0) == 5 && NamedEntity(u) == None
  {
    NamedIsFound(u);
    var i := FindEntity(u, 0);
    hide FindEntity, NamedEntity;
    if i < 5 { EntityChars(u, i, 0); }
  }

  // The names of the entities are letters, and none of them is an x.
  lemma EntityChars(u: string, i: nat, k: nat)
    requires i < 5 && IsEntity(u, ENTITIES[i]) && k < |ENTITIES[i].pattern|
    ensures u[k + 1] == ENTITIES[i].pattern[k] && u[k + 1] != '#' && u[k + 1] != 'x'
  {
    assert u[k + 1] == u[1..|ENTITIES[i].pattern| + 1][k];
  }

  // ---- texts without anything special ----

  predicate Plain(c: char) { c != '&' && c != CR && c != LF }

  lemma PlainMeans(u: string, entities: bool, newlines: bool)
    requires u != "" && Plain(u[0])
    ensures MeaningOf(u, entities, newlines) == Meaning(1, [u[0]])
  {
    hide FindEntity;
  }

  lemma {:induction false} PlainRun(t: string, i: nat, j: nat, entities: bool, newlines: bool)
    requires i <= j <= |t| && forall k :: i <= k < j ==> Plain(t[k])
    ensures |Meant(t, i, entities, newlines)| == j - i + |Meant(t, j, entities, newlines)|
    decreases j - i
  {
    hide Meant, MeaningOf;
    if i < j {
      PlainRun(t, i + 1, j, entities, newlines);
      OneMeant(t, i, entities, newlines);
      PlainMeans(t[i..], entities, newlines);
    }
  }

  // ---- what is misread ----

  // Position s holds a stop character, position e a semicolon, and there are only digits between.
  ghost predicate Tail(t: string, s: nat, e: nat, base: nat) {
    && s < e < |t| && t[s] == Stop(base) && t[e] == ';'
    && forall k :: s < k < e ==> IsDigit(t[k], base)
  }

  lemma TailIsPlain(t: string, s: nat, e: nat, base: nat)
    requires Tail(t, s, e, base)
    ensures forall k :: s <= k <= e ==> Plain(t[k])
    ensures AllDigits(t[s + 1..e], base)
  {
  }

  // The number w read from the tail.
  ghost predicate ReadsTail(t: string, s: nat, e: nat, base: nat, w: nat)
    requires Tail(t, s, e, base)
  {
    TailIsPlain(t, s, e, base);
    Denoted(t[s + 1..e], base) < UINT32 ==> w == Denoted(t[s + 1..e], base)
  }

  // A short tail stands for a small number, which takes few bytes.
  lemma TailLength(t: string, s: nat, e: nat, base: nat, w: nat)
    requires Tail(t, s, e, base) && ReadsTail(t, s, e, base, w) && base <= 16
    ensures |Utf8(w)| <= 4 && (e - s <= 2 ==> |Utf8(w)| == 1)
  {
    hide Utf8;
    TailIsPlain(t, s, e, base);
    var digits := t[s + 1..e];
    NoDigits(base);
    if e - s == 2 { OneMoreDenoted("", digits[0], digits, base); }
    hide Denoted;
    if e - s <= 2 { Ascii(w); }
    Utf8Layout(w);
  }

  // In front of a tail, with no other semicolon: what the text from there on means is no shorter
  // than what is written for the number.
  lemma {:induction false} InFrontOfTail(t: string, k: nat, s: nat, e: nat, base: nat, w: nat, entities: bool, newlines: bool)
    requires Tail(t, s, e, base) && ReadsTail(t, s, e, base, w) && (base == 10 || base == 16)
    requires k <= s && NoSemicolon(t, k, e)
    ensures |Meant(t, k, entities, newlines)| >= |Utf8(w)| + |Meant(t, e + 1, entities, newlines)|
    decreases s - k
  {
    hide Meant, MeaningOf, Utf8, Tail, ReadsTail;
    TailLength(t, s, e, base, w);
    if k == s {
      TailIsPlain(t, s, e, base);
      assert e < |t| && s < e by { TailPlaces(t, s, e, base); }
      PlainRun(t, s, e + 1, entities, newlines);
    } else {
      TailPlaces(t, s, e, base);
      var m := MeaningOf(t[k..], entities, newlines);
      OneMeant(t, k, entities, newlines);
      if k + m.read <= s {
        InFrontOfTail(t, k + m.read, s, e, base, w, entities, newlines);
      } else {
        OverTheTail(t, k, s, e, base, w, entities, newlines);
      }
    }
  }

  lemma TailPlaces(t: string, s: nat, e: nat, base: nat)
    requires Tail(t, s, e, base)
    ensures s < e < |t| && t[s] == Stop(base) && t[e] == ';'
  {
  }

  // A piece that starts in front of a tail and goes on into it is a reference with its digits.
  lemma OverTheTail(t: string, k: nat, s: nat, e: nat, base: nat, w: nat, entities: bool, newlines: bool)
    requires Tail(t, s, e, base) && ReadsTail(t, s, e, base, w) && (base == 10 || base == 16)
    requires k < s && NoSemicolon(t, k, e) && k + MeaningOf(t[k..], entities, newlines).read > s
    ensures MeaningOf(t[k..], entities, newlines) == Meaning(e + 1 - k, Utf8(w))
  {
    hide NamedEntity, FindEntity, IsReference, ReferenceEnd, ReferenceNumber, Utf8;
    var u := t[k..];
    assert forall i :: 0 <= i < |u| ==> u[i] == t[k + i];
    NoEntityOver(u, s - k, e - k, base);
    if entities && IsProper(u) { SameDigits(t, k, s, e, base); }
  }

  lemma NoEntityOver(u: string, s: nat, e: nat, base: nat)
    requires 0 < s < e < |u| && u[s] == Stop(base) && u[e] == ';' && forall i :: 0 <= i < e ==> u[i] != ';'
    ensures NamedEntity(u) == None
  {
    if u[0] == '&' {
      NamedIsFound(u);
      var i := FindEntity(u, 0);
      hide FindEntity, NamedEntity;
      if i < 5 { EntityChars(u, i, s - 1); }
    } else {
      hide FindEntity;
    }
  }

  lemma SameDigits(t: string, k: nat, s: nat, e: nat, base: nat)
    requires Tail(t, s, e, base) && (base == 10 || base == 16) && k < s && NoSemicolon(t, k, e) && IsReference(t[k..])
    ensures ReferenceEnd(t[k..]) == e - k && AllDigits(t[s + 1..e], base)
    ensures ReferenceNumber(t[k..]) == Denoted(t[s + 1..e], base)
  {
    var u := t[k..];
    assert forall i :: 0 <= i < |u| ==> u[i] == t[k + i];
    var e2, from := ReferenceEnd(u), First(u);
    DigitsInside(u, from, e2, Base(u));
    hide DigitsEnd, Denoted;
    assert e2 == e - k;
    assert from == s + 1 - k && Base(u) == base;
    SliceOfRest(t, k, from, e2);
  }

  // Whatever is misread is written shorter than it is meant.
  lemma MisreadShortens(t: string, p: nat, entities: bool, newlines: bool)
    requires p < |t| && Misread(t[p..], entities)
    ensures var r := CharacterRef(t[p..]);
      p + r.read <= |t| && |r.bytes| + |Meant(t, p + r.read, entities, newlines)| < |Meant(t, p, entities, newlines)|
  {
    hide *;
    var u := t[p..];
    OfMisread(u, entities);
    LoneAmpersand(t, p, entities, newlines);
    if At(u, 2) == NUL {
      NothingWritten(u);
    } else {
      var s, e, w := WhatIsRead(u);
      BaseIs(u);
      AfterTheStart(u);
      TailOf(t, p, s, e, w);
      if s == First(u) - 1 {
        DigitsInPlace(t, p, s, e, w, entities, newlines);
      } else {
        SomethingBetween(t, p, s, e, w, entities, newlines);
      }
    }
  }

  lemma OfMisread(u: string, entities: bool)
    requires Misread(u, entities)
    ensures At(u, 0) == '&' && At(u, 1) == '#' && CharacterRef(u).Reference? && !IsProper(u)
  {
    hide CharacterRef, IsProper;
  }

  lemma AfterTheStart(u: string)
    requires At(u, 0) == '&' && At(u, 1) == '#' && At(u, 2) != NUL
    ensures |u| > 2 && u[0] == '&' && u[1] == '#'
  {
  }

  lemma NothingWritten(u: string)
    requires At(u, 2) == NUL
    ensures CharacterRef(u) == Reference(1, "")
  {
  }

  lemma BaseIs(u: string)
    ensures (Base(u) == 10 && First(u) == 2) || (Base(u) == 16 && First(u) == 3 && At(u, 2) == 'x')
  {
  }

  // The digits are where those of a reference are, but they denote no character: all stands for itself.
  lemma DigitsInPlace(t: string, p: nat, s: nat, e: nat, w: nat, entities: bool, newlines: bool)
    requires p + e < |t| && First(t[p..]) <= e && t[p..][0] == '&' && t[p..][1] == '#' && s == First(t[p..]) - 1
    requires Tail(t, p + s, p + e, Base(t[p..])) && ReadsTail(t, p + s, p + e, Base(t[p..]), w)
    requires |Meant(t, p, entities, newlines)| == 1 + |Meant(t, p + 1, entities, newlines)|
    ensures |Utf8(w)| + |Meant(t, p + e + 1, entities, newlines)| < |Meant(t, p, entities, newlines)|
  {
    hide Meant, Utf8, Tail, ReadsTail;
    var base := Base(t[p..]);
    assert t[p..][1] == t[p + 1] && (First(t[p..]) == 3 ==> t[p + 2] == 'x');
    TailIsPlain(t, p + s, p + e, base);
    TailPlaces(t, p + s, p + e, base);
    TailLength(t, p + s, p + e, base, w);
    PlainRun(t, p + 1, p + e + 1, entities, newlines);
  }

  // There is something between the start and the digits.
  lemma SomethingBetween(t: string, p: nat, s: nat, e: nat, w: nat, entities: bool, newlines: bool)
    requires p + e < |t| && First(t[p..]) <= s < e && t[p..][0] == '&' && t[p..][1] == '#' && NoSemicolon(t[p..], First(t[p..]), e)
    requires Tail(t, p + s, p + e, Base(t[p..])) && ReadsTail(t, p + s, p + e, Base(t[p..]), w)
    requires |Meant(t, p, entities, newlines)| == 1 + |Meant(t, p + 1, entities, newlines)|
    ensures |Utf8(w)| + |Meant(t, p + e + 1, entities, newlines)| < |Meant(t, p, entities, newlines)|
  {
    hide Meant, Utf8, Tail, ReadsTail;
    var u := t[p..];
    assert forall k :: 0 <= k < |u| ==> t[p + k] == u[k];
    assert NoSemicolon(t, p + 2, p + e) by {
      assert forall k :: p + 2 <= k < p + e ==> t[k] == u[k - p];
    }
    PlainRun(t, p + 1, p + 2, entities, newlines);
    InFrontOfTail(t, p + 2, p + s, p + e, Base(u), w, entities, newlines);
  }

  lemma SliceOfRest(t: string, k: nat, i: nat, j: nat)
    requires i <= j && k + j <= |t|
    ensures t[k..][i..j] == t[k + i..k + j]
  {
  }

  lemma TailOf(t: string, p: nat, s: nat, e: nat, w: nat)
    requires p <= |t| && s < e < |t[p..]|
    requires var u := t[p..];
      && u[s] == Stop(Base(u)) && u[e] == ';' && AllDigits(u[s + 1..e], Base(u))
      && (Denoted(u[s + 1..e], Base(u)) < UINT32 ==> w == Denoted(u[s + 1..e], Base(u)))
    ensures Tail(t, p + s, p + e, Base(t[p..])) && ReadsTail(t, p + s, p + e, Base(t[p..]), w)
  {
    hide Denoted;
    var u := t[p..];
    DigitsInside(u, s + 1, e, Base(u));
    assert forall k :: 0 <= k < |u| ==> u[k] == t[p + k];
    SliceOfRest(t, p, s + 1, e);
  }

  lemma LoneAmpersand(t: string, p: nat, entities: bool, newlines: bool)
    requires p < |t| && At(t[p..], 0) == '&' && At(t[p..], 1) == '#' && !IsProper(t[p..])
    ensures |Meant(t, p, entities, newlines)| == 1 + |Meant(t, p + 1, entities, newlines)|
  {
    hide Meant, IsProper, FindEntity;
    NoEntityHere(t[p..]);
    OneMeant(t, p, entities, newlines);
  }
}
