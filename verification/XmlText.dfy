/** tinyxml2.cpp: the text that GetStr makes of a piece of markup in place, and when that is what the
    markup means. */
module XmlText {
  import opened Options
  import opened XmlEntities
  import opened XmlMeaning
  import opened XmlReferences

  // What GetStr writes from the moment on when it reads at p and writes at q: an & that starts no
  // entity is passed over by both pointers, so that whatever stands at q is left there.
  function Converted(t: string, p: nat, q: nat, entities: bool, newlines: bool): (r: string)
    requires q <= p <= |t|
    ensures q + |r| <= |t|
    decreases |t| - p
  {
    if p == |t| then ""
    else
      var piece := NextPiece(t[p..], entities, newlines);
      PieceShrinks(t[p..], entities, newlines);
      var here := if piece.written.Kept? then [t[q]] else piece.written.s;
      here + Converted(t, p + piece.read, q + |here|, entities, newlines)
  }

  // Wherever an & starts no entity, an & happens to stand at the write pointer.
  predicate NothingStale(t: string, p: nat, q: nat, entities: bool, newlines: bool)
    requires q <= p <= |t|
    decreases |t| - p
  {
    p == |t| ||
      var piece := NextPiece(t[p..], entities, newlines);
      PieceShrinks(t[p..], entities, newlines);
      && (piece.written.Kept? ==> t[q] == '&')
      && NothingStale(t, p + piece.read, q + WrittenLength(piece.written), entities, newlines)
  }

  // Nowhere in the text does GetCharacterRef take something for a reference that is none.
  predicate NothingMisread(t: string, p: nat, entities: bool, newlines: bool)
    requires p <= |t|
    decreases |t| - p
  {
    p == |t| ||
      var piece := NextPiece(t[p..], entities, newlines);
      PieceShrinks(t[p..], entities, newlines);
      !Misread(t[p..], entities) && NothingMisread(t, p + piece.read, entities, newlines)
  }

  // GetStr gives what the markup means exactly when nothing stale is left behind and nothing is
  // misread: misreading always makes the text too short.
  lemma {:induction false} ConvertedIsMeant(t: string, p: nat, q: nat, entities: bool, newlines: bool)
    requires q <= p <= |t|
    ensures Converted(t, p, q, entities, newlines) == Meant(t, p, entities, newlines) <==>
      NothingStale(t, p, q, entities, newlines) && NothingMisread(t, p, entities, newlines)
    decreases |t| - p
  {
    hide *;
    NoRound(t, q, entities, newlines);
    if p < |t| {
      var piece := NextPiece(t[p..], entities, newlines);
      OneRound(t, p, q, entities, newlines);
      OneJudged(t, p, entities, newlines);
      var p', q' := p + piece.read, q + WrittenLength(piece.written);
      ConvertedIsMeant(t, p', q', entities, newlines);
      if Misread(t[p..], entities) {
        MisreadShortens(t, p, entities, newlines);
        NotTooLong(t, p', q', entities, newlines);
        BytesAre(t[p..], entities, newlines);
      } else {
        PieceMeans(t, p, entities, newlines);
        HereIs(piece.written, t[q]);
        var here := if piece.written.Kept? then [t[q]] else piece.written.s;
        var meant := if piece.written.Kept? then "&" else piece.written.s;
        SameParts(here, Converted(t, p', q', entities, newlines), meant, Meant(t, p', entities, newlines));
      }
    }
  }

  lemma HereIs(w: Written, c: char)
    ensures |if w.Kept? then [c] else w.s| == |if w.Kept? then "&" else w.s| == WrittenLength(w)
  {
  }

  // What is written is never longer than what is meant.
  lemma {:induction false} NotTooLong(t: string, p: nat, q: nat, entities: bool, newlines: bool)
    requires q <= p <= |t|
    ensures |Converted(t, p, q, entities, newlines)| <= |Meant(t, p, entities, newlines)|
    decreases |t| - p
  {
    hide *;
    NoRound(t, q, entities, newlines);
    if p < |t| {
      var piece := NextPiece(t[p..], entities, newlines);
      OneRound(t, p, q, entities, newlines);
      NotTooLong(t, p + piece.read, q + WrittenLength(piece.written), entities, newlines);
      if Misread(t[p..], entities) {
        MisreadShortens(t, p, entities, newlines);
        BytesAre(t[p..], entities, newlines);
      } else {
        PieceMeans(t, p, entities, newlines);
        HereIs(piece.written, t[q]);
      }
    }
  }

  lemma NoRound(t: string, q: nat, entities: bool, newlines: bool)
    requires q <= |t|
    ensures Converted(t, |t|, q, entities, newlines) == Meant(t, |t|, entities, newlines) == ""
    ensures NothingStale(t, |t|, q, entities, newlines) && NothingMisread(t, |t|, entities, newlines)
  {
  }

  // The definitions, one round further.
  lemma OneRound(t: string, p: nat, q: nat, entities: bool, newlines: bool)
    requires q <= p < |t|
    ensures var piece := NextPiece(t[p..], entities, newlines);
      var p', q' := p + piece.read, q + WrittenLength(piece.written);
      && q' <= p' <= |t| && p < p'
      && Converted(t, p, q, entities, newlines) ==
         (if piece.written.Kept? then [t[q]] else piece.written.s) + Converted(t, p', q', entities, newlines)
      && (NothingStale(t, p, q, entities, newlines) <==>
            (piece.written.Kept? ==> t[q] == '&') && NothingStale(t, p', q', entities, newlines))
  {
    hide NextPiece, Converted, NothingStale;
    PieceShrinks(t[p..], entities, newlines);
    RoundConverts(t, p, q, entities, newlines);
    RoundIsNotStale(t, p, q, entities, newlines);
  }

  lemma RoundConverts(t: string, p: nat, q: nat, entities: bool, newlines: bool)
    requires q <= p < |t|
    ensures var piece := NextPiece(t[p..], entities, newlines);
      var p', q' := p + piece.read, q + WrittenLength(piece.written);
      && q' <= p' <= |t|
      && Converted(t, p, q, entities, newlines) ==
         (if piece.written.Kept? then [t[q]] else piece.written.s) + Converted(t, p', q', entities, newlines)
  {
    hide NextPiece;
    PieceShrinks(t[p..], entities, newlines);
  }

  lemma RoundIsNotStale(t: string, p: nat, q: nat, entities: bool, newlines: bool)
    requires q <= p < |t|
    ensures var piece := NextPiece(t[p..], entities, newlines);
      var p', q' := p + piece.read, q + WrittenLength(piece.written);
      && q' <= p' <= |t|
      && (NothingStale(t, p, q, entities, newlines) <==>
            (piece.written.Kept? ==> t[q] == '&') && NothingStale(t, p', q', entities, newlines))
  {
    hide NextPiece;
    PieceShrinks(t[p..], entities, newlines);
  }

  lemma OneJudged(t: string, p: nat, entities: bool, newlines: bool)
    requires p < |t|
    ensures var piece := NextPiece(t[p..], entities, newlines);
      && p + piece.read <= |t|
      && (NothingMisread(t, p, entities, newlines) <==>
            !Misread(t[p..], entities) && NothingMisread(t, p + piece.read, entities, newlines))
  {
    hide NextPiece, Misread;
    PieceShrinks(t[p..], entities, newlines);
  }

  // What is not misread is read as it is meant.
  lemma PieceMeans(t: string, p: nat, entities: bool, newlines: bool)
    requires p < |t| && !Misread(t[p..], entities)
    ensures var piece := NextPiece(t[p..], entities, newlines);
      && p + piece.read <= |t|
      && Meant(t, p, entities, newlines) ==
         (if piece.written.Kept? then "&" else piece.written.s) + Meant(t, p + piece.read, entities, newlines)
  {
    hide Meant, MeaningOf, NextPiece, Misread;
    OneMeant(t, p, entities, newlines);
    ReadAsMeant(t[p..], entities, newlines);
  }

  lemma ReadAsMeant(u: string, entities: bool, newlines: bool)
    requires u != "" && !Misread(u, entities)
    ensures var piece := NextPiece(u, entities, newlines);
      MeaningOf(u, entities, newlines) == Meaning(piece.read, if piece.written.Kept? then "&" else piece.written.s)
  {
    hide CharacterRef, IsReference, ReferenceNumber, ReferenceEnd, Utf8;
    if IsProper(u) {
      NarrowReference(u);
      StartsLikeReference(u);
    }
    if u[0] == '&' && At(u, 1) == '#' { NoEntityHere(u); }
  }

  lemma BytesAre(u: string, entities: bool, newlines: bool)
    requires Misread(u, entities)
    ensures NextPiece(u, entities, newlines) == Piece(CharacterRef(u).read, Bytes(CharacterRef(u).bytes))
  {
    hide CharacterRef, IsProper;
  }

  lemma SameParts(a: string, b: string, c: string, d: string)
    requires |a| == |c|
    ensures a + b == c + d <==> a == c && b == d
  {
    if a + b == c + d {
      assert a == (a + b)[..|a|] && c == (c + d)[..|a|];
      assert b == (a + b)[|a|..] && d == (c + d)[|a|..];
    }
  }

  // It does as long as the pointers are still together when the last such & comes: nothing before
  // it got shorter.
  predicate TogetherUntil(t: string, p: nat, entities: bool, newlines: bool)
    requires p <= |t|
    decreases |t| - p
  {
    p == |t| ||
      var piece := NextPiece(t[p..], entities, newlines);
      PieceShrinks(t[p..], entities, newlines);
      if WrittenLength(piece.written) == piece.read then TogetherUntil(t, p + piece.read, entities, newlines)
      else AllKnown(t, p + piece.read, entities, newlines)
  }

  // From p on every & starts an entity or a numeric reference.
  predicate AllKnown(t: string, p: nat, entities: bool, newlines: bool)
    requires p <= |t|
    decreases |t| - p
  {
    p == |t| ||
      var piece := NextPiece(t[p..], entities, newlines);
      PieceShrinks(t[p..], entities, newlines);
      piece.written.Bytes? && AllKnown(t, p + piece.read, entities, newlines)
  }

  lemma {:induction false} AllKnownIsNotStale(t: string, p: nat, q: nat, entities: bool, newlines: bool)
    requires q <= p <= |t| && AllKnown(t, p, entities, newlines)
    ensures NothingStale(t, p, q, entities, newlines)
    decreases |t| - p
  {
    hide NextPiece, NothingStale, AllKnown;
    NoRound(t, q, entities, newlines);
    if p < |t| {
      var piece := NextPiece(t[p..], entities, newlines);
      OneRound(t, p, q, entities, newlines);
      OneKnown(t, p, entities, newlines);
      AllKnownIsNotStale(t, p + piece.read, q + WrittenLength(piece.written), entities, newlines);
    }
  }

  lemma OneKnown(t: string, p: nat, entities: bool, newlines: bool)
    requires p < |t| && AllKnown(t, p, entities, newlines)
    ensures var piece := NextPiece(t[p..], entities, newlines);
      && p + piece.read <= |t| && piece.written.Bytes? && AllKnown(t, p + piece.read, entities, newlines)
  {
    hide NextPiece;
    PieceShrinks(t[p..], entities, newlines);
  }

  lemma {:induction false} TogetherIsNotStale(t: string, p: nat, entities: bool, newlines: bool)
    requires p <= |t| && TogetherUntil(t, p, entities, newlines)
    ensures NothingStale(t, p, p, entities, newlines)
    decreases |t| - p
  {
    hide NextPiece, NothingStale, AllKnown, TogetherUntil;
    NoRound(t, p, entities, newlines);
    if p < |t| {
      var piece := NextPiece(t[p..], entities, newlines);
      OneRound(t, p, p, entities, newlines);
      OneTogether(t, p, entities, newlines);
      if WrittenLength(piece.written) == piece.read {
        TogetherIsNotStale(t, p + piece.read, entities, newlines);
      } else {
        AllKnownIsNotStale(t, p + piece.read, p + WrittenLength(piece.written), entities, newlines);
      }
    }
  }

  lemma OneTogether(t: string, p: nat, entities: bool, newlines: bool)
    requires p < |t| && TogetherUntil(t, p, entities, newlines)
    ensures var piece := NextPiece(t[p..], entities, newlines);
      && p + piece.read <= |t| && WrittenLength(piece.written) <= piece.read
      && (if WrittenLength(piece.written) == piece.read then TogetherUntil(t, p + piece.read, entities, newlines)
          else AllKnown(t, p + piece.read, entities, newlines))
      && (piece.written.Kept? ==> t[p] == '&')
  {
    hide NextPiece;
    PieceShrinks(t[p..], entities, newlines);
    if NextPiece(t[p..], entities, newlines).written.Kept? { KeptIsAmpersand(t[p..], entities, newlines); }
  }

  lemma KeptIsAmpersand(u: string, entities: bool, newlines: bool)
    requires u != "" && NextPiece(u, entities, newlines).written.Kept?
    ensures u[0] == '&'
  {
  }

  // After an entity has made the text shorter, an & that starts none turns into a stale character.
  lemma StaleExample()
    ensures Converted("&lt;&z", 0, 0, true, true) == "<lz"
    ensures Meant("&lt;&z", 0, true, true) == "<&z"
  {
    hide Converted, Meant, NextPiece, MeaningOf, Misread;
    var t := "&lt;&z";
    StalePieces(t);
    OneRound(t, 0, 0, true, true);
    OneRound(t, 4, 1, true, true);
    OneRound(t, 5, 2, true, true);
    NoRound(t, 3, true, true);
    NoReference(t[0..], true);
    NoReference(t[4..], true);
    NoReference(t[5..], true);
    PieceMeans(t, 0, true, true);
    PieceMeans(t, 4, true, true);
    PieceMeans(t, 5, true, true);
  }

  lemma NoReference(u: string, entities: bool)
    requires At(u, 0) != '&' || At(u, 1) != '#'
    ensures !Misread(u, entities)
  {
    hide CharacterRef;
  }

  lemma StalePieces(t: string)
    requires t == "&lt;&z"
    ensures NextPiece(t[0..], true, true) == Piece(4, Bytes("<"))
    ensures NextPiece(t[4..], true, true) == Piece(1, Kept) && NextPiece(t[5..], true, true) == Piece(1, Bytes("z"))
  {
    assert t[0..] == t && t[4..] == "&z" && t[5..] == "z";
    EntityAt(3, "&z");
    assert "&" + ENTITIES[3].pattern + ";" + "&z" == t;
  }

  // ---- references that are misread ----

  // Somewhere an & is read and nothing is written for it.
  predicate Loses(t: string, p: nat, entities: bool, newlines: bool)
    requires p <= |t|
    decreases |t| - p
  {
    p < |t| &&
      var piece := NextPiece(t[p..], entities, newlines);
      PieceShrinks(t[p..], entities, newlines);
      piece == Piece(1, Bytes("")) || Loses(t, p + piece.read, entities, newlines)
  }

  // In a C string that is the & of a final &#, wherever the reading starts before it.
  lemma {:induction false} LosesIff(t: string, p: nat, entities: bool, newlines: bool)
    requires p <= |t| && NUL !in t
    ensures Loses(t, p, entities, newlines) <==> entities && p + 2 <= |t| && t[|t| - 2..] == "&#"
    decreases |t| - p
  {
    hide NextPiece;
    if p < |t| {
      var u := t[p..];
      var piece := NextPiece(u, entities, newlines);
      PieceShrinks(u, entities, newlines);
      LosesIff(t, p + piece.read, entities, newlines);
      LosesHere(u, entities, newlines);
      PieceEnd(u, entities, newlines);
      assert forall i :: 0 <= i < |u| ==> u[i] == t[p + i];
      if |t| >= 2 { Ends(t); }
      if |u| == 2 { assert u == t[|t| - 2..]; }
    }
  }

  lemma Ends(t: string)
    requires |t| >= 2
    ensures t[|t| - 2..] == "&#" <==> t[|t| - 2] == '&' && t[|t| - 1] == '#'
  {
    assert t[|t| - 2..] == [t[|t| - 2], t[|t| - 1]];
  }

  lemma LosesHere(u: string, entities: bool, newlines: bool)
    requires u != "" && NUL !in u
    ensures NextPiece(u, entities, newlines) == Piece(1, Bytes("")) <==> entities && u == "&#"
  {
    hide Number, Utf8;
  }

  lemma PieceEnd(u: string, entities: bool, newlines: bool)
    requires u != ""
    ensures var n := NextPiece(u, entities, newlines).read;
      2 <= n <= |u| ==> u[n - 1] == ';' || u[n - 1] == CR || u[n - 1] == LF
  {
    hide Number, Utf8;
  }

  // Such a text is never read as it is meant.
  lemma LostIsNotMeant(t: string, newlines: bool)
    requires NUL !in t && |t| >= 2 && t[|t| - 2..] == "&#"
    ensures Converted(t, 0, 0, true, newlines) != Meant(t, 0, true, newlines)
  {
    hide *;
    LosesIff(t, 0, true, newlines);
    LosesMisreads(t, 0, true, newlines);
    ConvertedIsMeant(t, 0, 0, true, newlines);
  }

  lemma {:induction false} LosesMisreads(t: string, p: nat, entities: bool, newlines: bool)
    requires p <= |t| && NUL !in t && Loses(t, p, entities, newlines)
    ensures !NothingMisread(t, p, entities, newlines)
    decreases |t| - p
  {
    hide NextPiece, Misread, NothingMisread;
    var u := t[p..];
    OneJudged(t, p, entities, newlines);
    PieceShrinks(u, entities, newlines);
    if NextPiece(u, entities, newlines) == Piece(1, Bytes("")) {
      LosesHere(u, entities, newlines);
      FinalStart(u);
    } else {
      LosesMisreads(t, p + NextPiece(u, entities, newlines).read, entities, newlines);
    }
  }

  lemma FinalStart(u: string)
    requires u == "&#"
    ensures Misread(u, true)
  {
  }

  lemma LostExample()
    ensures Converted("x&#", 0, 0, true, true) == "x#"
    ensures Meant("x&#", 0, true, true) == "x&#"
  {
    hide Converted, Meant, NextPiece, MeaningOf;
    var t := "x&#";
    assert t[0..] == t && t[1..] == "&#" && t[2..] == "#";
    LostPieces(t);
    OneRound(t, 0, 0, true, true);
    OneRound(t, 1, 1, true, true);
    OneRound(t, 2, 1, true, true);
    NoRound(t, 2, true, true);
    OneMeant(t, 0, true, true);
    OneMeant(t, 1, true, true);
    OneMeant(t, 2, true, true);
  }

  lemma LostPieces(t: string)
    requires t == "x&#"
    ensures NextPiece(t, true, true) == Piece(1, Bytes("x")) && MeaningOf(t, true, true) == Meaning(1, "x")
    ensures NextPiece("&#", true, true) == Piece(1, Bytes("")) && MeaningOf("&#", true, true) == Meaning(1, "&")
    ensures NextPiece("#", true, true) == Piece(1, Bytes("#")) && MeaningOf("#", true, true) == Meaning(1, "#")
  {
    hide FindEntity;
    NoEntityHere("&#");
  }

  // Without digits a zero is written, which ends the string; and the digits count from the last # on.
  lemma MisreadExamples()
    ensures Converted("&#;", 0, 0, true, true) == [NUL] && Meant("&#;", 0, true, true) == "&#;"
    ensures Converted("&#5#65;", 0, 0, true, true) == "A" && Meant("&#5#65;", 0, true, true) == "&#5#65;"
  {
    hide *;
    NoDigitsExample();
    SecondStopExample();
  }

  lemma NoDigitsExample()
    ensures Converted("&#;", 0, 0, true, true) == [NUL] && Meant("&#;", 0, true, true) == "&#;"
  {
    hide Converted, Meant, MeaningOf, Number, Semicolon, Utf8;
    var t := "&#;";
    assert t[0..] == t && t[1..] == "#;";
    SemicolonIs(t, 2, 2);
    ShortNumber(t, 2, 10, '#');
    Utf8Zero();
    OneRound(t, 0, 0, true, true);
    NoRound(t, 1, true, true);
    NotProper(t);
    StandsForItself(t);
    PlainIsMeant(t, 1);
  }

  lemma SecondStopExample()
    ensures Converted("&#5#65;", 0, 0, true, true) == "A" && Meant("&#5#65;", 0, true, true) == "&#5#65;"
  {
    hide Converted, Meant, MeaningOf, NextPiece;
    var t := "&#5#65;";
    SecondStopPiece(t);
    assert t[0..] == t;
    OneRound(t, 0, 0, true, true);
    NoRound(t, 1, true, true);
    NotProper(t);
    StandsForItself(t);
    PlainIsMeant(t, 1);
  }

  lemma SecondStopPiece(t: string)
    requires t == "&#5#65;"
    ensures NextPiece(t, true, true) == Piece(7, Bytes("A"))
  {
    hide Number, Semicolon, Utf8;
    assert At(t, 2) == '5';
    SemicolonIs(t, 2, 6);
    SecondStopNumber(t);
    Ascii(65);
  }

  lemma SecondStopNumber(t: string)
    requires t == "&#5#65;"
    ensures Number(t, 6, 10, '#', 1, 0) == Some(65)
  {
    hide Number;
    OneDigit(t, 6, 10, '#', 1, 0);
    OneDigit(t, 5, 10, '#', 10, 5);
    OneDigit(t, 4, 10, '#', 100, 65);
  }

  lemma NotProper(t: string)
    requires t == "&#;" || t == "&#5#65;"
    ensures !IsProper(t)
  {
    if t == "&#5#65;" {
      var e := DigitsEnd(t, 2, 10);
      hide DigitsEnd;
      assert !IsDigit(t[3], 10);
      if e > 3 { DigitsInside(t, 2, e, 10); }
    }
  }

  lemma StandsForItself(u: string)
    requires At(u, 0) == '&' && At(u, 1) == '#' && !IsProper(u)
    ensures Meant(u, 0, true, true) == "&" + Meant(u, 1, true, true)
  {
    hide Meant, IsProper, FindEntity;
    assert u[0..] == u;
    NoEntityHere(u);
    OneMeant(u, 0, true, true);
  }

  lemma {:induction false} PlainIsMeant(t: string, p: nat)
    requires p <= |t| && forall k :: p <= k < |t| ==> Plain(t[k])
    ensures Meant(t, p, true, true) == t[p..]
    decreases |t| - p
  {
    hide Meant, MeaningOf;
    NothingMeant(t, true, true);
    if p < |t| {
      OneMeant(t, p, true, true);
      PlainMeans(t[p..], true, true);
      PlainIsMeant(t, p + 1);
    }
  }

  // ---- escaping and reading back ----

  lemma PieceOfEscaped(c: char, rest: string, restricted: bool)
    requires c != CR && At(rest, 0) != CR
    ensures var e := EscapedChar(c, restricted);
      NextPiece(e + rest, true, true) == Piece(|e|, Bytes([c]))
  {
    var e := EscapedChar(c, restricted);
    var u := e + rest;
    if Flagged(c, restricted) {
      var i := if c == '"' then 0 else if c == '&' then 1 else if c == '\'' then 2 else if c == '<' then 3 else 4;
      assert ENTITIES[i].value == c && e == "&" + ENTITIES[i].pattern + ";";
      EntityAt(i, rest);
    } else {
      assert u[0] == c && At(u, 1) == At(rest, 0);
    }
  }

  // An entity is found where it is printed, and no other one before it in the table.
  lemma EntityAt(i: nat, rest: string)
    requires i < 5
    ensures var u := "&" + ENTITIES[i].pattern + ";" + rest;
      At(u, 0) == '&' && At(u, 1) != '#' && FindEntity(u, 0) == i
  {
    var u := "&" + ENTITIES[i].pattern + ";" + rest;
    var n := |ENTITIES[i].pattern|;
    assert u[1..n + 1] == ENTITIES[i].pattern && u[n + 1] == ';';
    assert IsEntity(u, ENTITIES[i]);
    assert u[1] == ENTITIES[i].pattern[0] && u[2] == ENTITIES[i].pattern[1];
    forall k | 0 <= k < i
      ensures !IsEntity(u, ENTITIES[k])
    {
      OtherStart(u, ENTITIES[k]);
    }
  }

  lemma OtherStart(u: string, e: Entity)
    requires |u| > 2 && |e.pattern| >= 2 && (u[1] != e.pattern[0] || u[2] != e.pattern[1])
    ensures !IsEntity(u, e)
  {
    if |u| > |e.pattern| + 1 {
      var v := u[1..|e.pattern| + 1];
      assert v[0] == u[1] && v[1] == u[2];
    }
  }

  // Reading an escaped string restores it, from any character on.
  lemma {:induction false} EscapeRoundTrip(s: string, k: nat, restricted: bool)
    requires CR !in s && k <= |s|
    ensures var p := |Escaped(s[..k], restricted)|;
      && k <= p <= |Escaped(s, restricted)|
      && Converted(Escaped(s, restricted), p, k, true, true) == s[k..]
    decreases |s| - k
  {
    hide Escaped, EscapedChar, NextPiece, Converted;
    var t := Escaped(s, restricted);
    EscapedPrefix(s, k, restricted);
    NoRound(t, k, true, true);
    if k < |s| {
      EscapedNext(s, k, restricted);
      EscapeRoundTrip(s, k + 1, restricted);
      OneRound(t, |Escaped(s[..k], restricted)|, k, true, true);
      assert s[k..] == [s[k]] + s[k + 1..];
    } else {
      assert s[..k] == s && s[k..] == "";
    }
  }

  // What is printed means the string that was printed.
  lemma {:induction false} PrintedMeans(s: string, k: nat, restricted: bool)
    requires CR !in s && k <= |s|
    ensures var p := |Escaped(s[..k], restricted)|;
      p <= |Escaped(s, restricted)| && Meant(Escaped(s, restricted), p, true, true) == s[k..]
    decreases |s| - k
  {
    hide Escaped, EscapedChar, NextPiece, Meant, MeaningOf, Misread;
    var t := Escaped(s, restricted);
    EscapedPrefix(s, k, restricted);
    if k < |s| {
      EscapedNext(s, k, restricted);
      PrintedMeans(s, k + 1, restricted);
      var p := |Escaped(s[..k], restricted)|;
      NothingMisreadHere(s, k, restricted);
      PieceMeans(t, p, true, true);
      assert s[k..] == [s[k]] + s[k + 1..];
    } else {
      assert s[..k] == s && s[k..] == "";
      NothingMeant(t, true, true);
    }
  }

  lemma NothingMisreadHere(s: string, k: nat, restricted: bool)
    requires CR !in s && k < |s|
    ensures |Escaped(s[..k], restricted)| < |Escaped(s, restricted)|
    ensures !Misread(Escaped(s, restricted)[|Escaped(s[..k], restricted)|..], true)
  {
    var t, rest := Escaped(s, restricted), Escaped(s[k + 1..], restricted);
    var p, e := |Escaped(s[..k], restricted)|, EscapedChar(s[k], restricted);
    EscapedNext(s, k, restricted);
    hide Escaped, NextPiece;
    RestOfEscaped(s, k, restricted);
    EscapedStart(s[k], rest, restricted);
    NoReference(t[p..], true);
  }

  lemma RestOfEscaped(s: string, k: nat, restricted: bool)
    requires k < |s|
    ensures |Escaped(s[..k], restricted)| <= |Escaped(s, restricted)|
    ensures Escaped(s, restricted)[|Escaped(s[..k], restricted)|..] == EscapedChar(s[k], restricted) + Escaped(s[k + 1..], restricted)
  {
    assert s == s[..k] + s[k..] && s[k..][1..] == s[k + 1..];
    EscapedSum(s[..k], s[k..], restricted);
  }

  lemma EscapedStart(c: char, rest: string, restricted: bool)
    ensures var u := EscapedChar(c, restricted) + rest; At(u, 0) != '&' || At(u, 1) != '#'
  {
  }

  lemma EscapedPrefix(s: string, k: nat, restricted: bool)
    requires k <= |s|
    ensures k <= |Escaped(s[..k], restricted)| <= |Escaped(s, restricted)|
  {
    assert s == s[..k] + s[k..];
    EscapedSum(s[..k], s[k..], restricted);
    EscapedIsLonger(s[..k], restricted);
  }

  // At p = the length of what is escaped up to k, the escaped character k comes next.
  lemma EscapedNext(s: string, k: nat, restricted: bool)
    requires CR !in s && k < |s|
    ensures var t, e := Escaped(s, restricted), EscapedChar(s[k], restricted);
      var p := |Escaped(s[..k], restricted)|;
      && p < |t| && |Escaped(s[..k + 1], restricted)| == p + |e|
      && NextPiece(t[p..], true, true) == Piece(|e|, Bytes([s[k]]))
  {
    var t, c, rest := Escaped(s, restricted), s[k], Escaped(s[k + 1..], restricted);
    assert s == s[..k] + s[k..] && s[k..][1..] == s[k + 1..] && s[..k + 1] == s[..k] + [c];
    EscapedSum(s[..k], s[k..], restricted);
    EscapedSum(s[..k], [c], restricted);
    assert Escaped([c], restricted) == EscapedChar(c, restricted) + "";
    assert Escaped(s[k..], restricted) == EscapedChar(c, restricted) + rest;
    EscapedIsClean(s[k + 1..], restricted);
    InTheRest(s, k);
    PieceOfEscaped(c, rest, restricted);
    EscapedNotEmpty(c, restricted);
    hide Escaped, EscapedChar, NextPiece;
    assert t == Escaped(s[..k], restricted) + (EscapedChar(c, restricted) + rest);
  }

  lemma InTheRest(s: string, k: nat)
    requires CR !in s && k < |s|
    ensures s[k] != CR && CR !in s[k + 1..]
  {
  }

  lemma EscapedNotEmpty(c: char, restricted: bool)
    ensures EscapedChar(c, restricted) != ""
  {
  }

  lemma {:induction false} EscapedIsLonger(s: string, restricted: bool)
    ensures |s| <= |Escaped(s, restricted)|
  {
    if s != "" { EscapedIsLonger(s[1..], restricted); }
  }
}
