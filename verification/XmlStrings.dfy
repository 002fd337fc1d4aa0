/** tinyxml2.cpp: the printer that escapes, and the string pair that finds a piece of markup in the
    document's memory and converts it there. */
module XmlStrings {
  import opened XmlEntities
  import opened XmlReferences

  const INT_MAX := 0x7FFF_FFFF

  // ---- printing ----

  class XMLPrinter {
    var buffer: string
    const processEntities: bool

    constructor (processEntities: bool)
      ensures buffer == "" && this.processEntities == processEntities
    {
      buffer, this.processEntities := "", processEntities;
    }

    method Print(s: string)
      modifies this
      ensures buffer == old(buffer) + s
    {
      buffer := buffer + s;
    }

    // The run of bytes between two entities, in portions that an int can count.
    method PrintRun(s: string, p: nat, q: nat)
      requires p <= q <= |s|
      modifies this
      ensures buffer == old(buffer) + s[p..q]
    {
      var i := p;
      while i < q
        invariant p <= i <= q && buffer == old(buffer) + s[p..i]
      {
        var delta := q - i;
        var toPrint := if INT_MAX < delta then INT_MAX else delta;
        assert s[p..i + toPrint] == s[p..i] + s[i..i + toPrint];
        Print(s[i..i + toPrint]);
        i := i + toPrint;
      }
    }

    // PrintString, on a C string: p is behind q by the run not printed yet.
    method PrintString(s: string, restricted: bool)
      modifies this
      ensures buffer == old(buffer) + if processEntities then Escaped(s, restricted) else s
    {
      var p, q := 0, 0;
      if processEntities {
        hide *;
        ghost var printed := "";
        NothingPending(s, restricted);
        while q < |s|
          invariant 0 <= p <= q <= |s| && buffer == old(buffer) + printed && Pending(s, printed, p, q, restricted)
        {
          if 0 < s[q] as int < 64 && Flagged(s[q], restricted) {
            PrintRun(s, p, q);
            var pattern := EntityOf(s[q], restricted);
            Print("&" + pattern + ";");
            printed := EntityPrinted(s, printed, p, q, restricted, "&" + pattern + ";", old(buffer), buffer);
            p := q + 1;
          } else {
            PassedOver(s, printed, p, q, restricted);
          }
          q := q + 1;
        }
        AllPrinted(s, printed, p, restricted, old(buffer));
      }
      if !processEntities || p < q { Print(s[p..]); }
    }

    // PushAttribute
    method PushAttribute(name: string, value: string)
      modifies this
      ensures buffer == old(buffer) + " " + name + "=\"" + (if processEntities then Escaped(value, false) else value) + "\""
    {
      Print(" " + name + "=\"");
      PrintString(value, false);
      Print("\"");
    }
  }

  // The loop over the entity table for a flagged character.
  method EntityOf(c: char, restricted: bool) returns (pattern: string)
    requires Flagged(c, restricted)
    ensures "&" + pattern + ";" == EscapedChar(c, restricted)
  {
    ghost var at := TableEntry(c, restricted);
    var i := 0;
    while i < 5
      invariant 0 <= i <= at && forall k :: 0 <= k < i ==> ENTITIES[k].value != c
    {
      if ENTITIES[i].value == c { return ENTITIES[i].pattern; }
      i := i + 1;
    }
    assert false;
  }

  lemma TableEntry(c: char, restricted: bool) returns (at: nat)
    requires Flagged(c, restricted)
    ensures at < 5 && ENTITIES[at].value == c
  {
    at := if c == '"' then 0 else if c == '&' then 1 else if c == '\'' then 2 else if c == '<' then 3 else 4;
  }

  // What is printed and the run from p to q not printed yet make up the escaped text up to q.
  ghost predicate Pending(s: string, printed: string, p: nat, q: nat, restricted: bool) {
    p <= q <= |s| && printed + s[p..q] == Escaped(s[..q], restricted)
  }

  lemma NothingPending(s: string, restricted: bool)
    ensures Pending(s, "", 0, 0, restricted)
  {
  }

  lemma PassedOver(s: string, printed: string, p: nat, q: nat, restricted: bool)
    requires q < |s| && Pending(s, printed, p, q, restricted) && !(0 < s[q] as int < 64 && Flagged(s[q], restricted))
    ensures Pending(s, printed, p, q + 1, restricted)
  {
    OneEscaped(s, q, restricted);
    hide Escaped, EscapedChar;
    assert s[p..q + 1] == s[p..q] + [s[q]];
    assert printed + (s[p..q] + [s[q]]) == printed + s[p..q] + [s[q]];
  }

  lemma EntityPrinted(s: string, printed: string, p: nat, q: nat, restricted: bool, entity: string, before: string, buffer: string)
    returns (printed': string)
    requires q < |s| && Pending(s, printed, p, q, restricted) && entity == EscapedChar(s[q], restricted)
    requires buffer == before + printed + s[p..q] + entity
    ensures Pending(s, printed', q + 1, q + 1, restricted) && buffer == before + printed'
  {
    OneEscaped(s, q, restricted);
    hide Escaped, EscapedChar;
    printed' := printed + s[p..q] + entity;
    assert printed' + s[q + 1..q + 1] == printed';
    assert before + printed + s[p..q] + entity == before + (printed + s[p..q] + entity);
  }

  lemma AllPrinted(s: string, printed: string, p: nat, restricted: bool, before: string)
    requires Pending(s, printed, p, |s|, restricted)
    ensures before + printed + s[p..] == before + Escaped(s, restricted) && (p == |s| ==> before + printed == before + Escaped(s, restricted))
  {
    hide Escaped;
    assert s[..|s|] == s && s[p..|s|] == s[p..];
    assert before + printed + s[p..] == before + (printed + s[p..]);
    if p == |s| { assert printed + s[p..] == printed; }
  }

  // One character more; a flagged one is below the range that the flags cover.
  lemma OneEscaped(s: string, q: nat, restricted: bool)
    requires q < |s|
    ensures Escaped(s[..q + 1], restricted) == Escaped(s[..q], restricted) + EscapedChar(s[q], restricted)
    ensures Flagged(s[q], restricted) ==> 0 < s[q] as int < 64
    ensures !Flagged(s[q], restricted) ==> EscapedChar(s[q], restricted) == [s[q]]
  {
    assert s[..q + 1] == s[..q] + [s[q]];
    EscapedSum(s[..q], [s[q]], restricted);
    assert Escaped([s[q]], restricted) == EscapedChar(s[q], restricted) + "";
  }

  // ---- reading: the parts of GetStr that only look ----

  // GetCharacterRef
  method GetCharacterRef(u: string) returns (r: Reference)
    requires At(u, 0) == '&' && At(u, 1) == '#'
    ensures r == CharacterRef(u)
    ensures IsReference(u) && ReferenceNumber(u) < UINT32 ==> r == Reference(ReferenceEnd(u) + 1, Utf8(ReferenceNumber(u)))
  {
    hide Utf8, IsReference, ReferenceNumber, ReferenceEnd;
    if IsReference(u) && ReferenceNumber(u) < UINT32 { NarrowReference(u); }
    if At(u, 2) == NUL { return Reference(1, ""); }
    var ucs: nat, mult: nat := 0, 1;
    var hex := At(u, 2) == 'x';
    var base, stop, from := if hex then 16 else 10, if hex then 'x' else '#', if hex then 3 else 2;
    if At(u, from) == NUL { return NoReference; }
    // strchr
    var q := from;
    while q < |u| && u[q] != ';'
      invariant from <= q <= |u| && Semicolon(u, from) == Semicolon(u, q)
    {
      q := q + 1;
    }
    if q == |u| { return NoReference; }
    var delta := q;
    while u[q - 1] != stop
      invariant from <= q <= delta
      invariant Number(u, delta, base, stop, 1, 0) == Number(u, q, base, stop, mult, ucs)
      decreases q
    {
      assert q > from;
      var digit := Digit(u[q - 1], base);
      if digit.None? { return NoReference; }
      ucs := (ucs + mult * digit.value % UINT32) % UINT64;
      mult := mult * base % UINT32;
      q := q - 1;
    }
    r := Reference(delta + 1, Utf8(ucs));
  }

  // strncmp with each pattern in turn
  method MatchEntity(u: string) returns (i: nat)
    requires At(u, 0) == '&'
    ensures i == FindEntity(u, 0)
  {
    i := 0;
    while i < 5
      invariant 0 <= i <= 5 && FindEntity(u, 0) == FindEntity(u, i)
    {
      if IsEntity(u, ENTITIES[i]) { return; }
      i := i + 1;
    }
  }
}
