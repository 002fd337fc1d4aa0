/** tinyxml2.cpp: attributes, parsed and printed, and the round trip of escaped values through the
    document's memory. */
module XmlAttribute {
  import opened Options
  import opened XmlEntities
  import opened XmlText
  import opened XmlSpaces
  import opened XmlParser

  // ---- what is escaped is read back ----

  // An escaped string ends at the first closing character, and what is before it is converted back
  // to the string: for attribute values and their quote, and for element text and <.
  lemma ReadBack(s: string, restricted: bool, c: char, rest: string)
    requires CR !in s && Flagged(c, restricted) && c != '&'
    ensures var e := Escaped(s, restricted);
      && FirstAt(e + [c] + rest, [c], |e|)
      && Result(e, true, true, false) == UpToZero(s)
  {
    var e := Escaped(s, restricted);
    var t := e + [c] + rest;
    EscapedIsClean(s, restricted);
    assert t[|e|..|e| + 1] == [c];
    forall i: nat | i < |e|
      ensures !StandsAt(t, [c], i)
    {
      assert t[i..i + 1] == [e[i]];
    }
    EscapeRoundTrip(s, 0, restricted);
    assert s[..0] == "" && s[0..] == s;
  }

  lemma OneFirst(t: string, tag: string, i: nat, j: nat)
    requires FirstAt(t, tag, i) && FirstAt(t, tag, j)
    ensures i == j
  {
  }

  // ---- attributes ----

  // isalpha and isdigit of the C locale
  predicate NameStart(c: char) {
    c as int >= 128 || 'a' <= c <= 'z' || 'A' <= c <= 'Z' || c == ':' || c == '_'
  }

  predicate NameChar(c: char) {
    NameStart(c) || '0' <= c <= '9' || c == '.' || c == '-'
  }

  const LETTERS := "abcdefghijklmnopqrstuvwxyz"

  // In ASCII they are letters, digits and four signs; every other character may stand in a name.
  lemma NameCharIs(c: char)
    ensures NameStart(c) <==> c as int >= 0x80 || c in LETTERS || (c < 'a' && (c + ' ') in LETTERS) || c == ':' || c == '_'
    ensures NameChar(c) <==> NameStart(c) || c in "0123456789" || c == '.' || c == '-'
  {
    LetterIs(c);
    if c < 'a' { LetterIs(c + ' '); }
    if '0' <= c <= '9' { assert "0123456789"[c as int - '0' as int] == c; }
    hide LETTERS;
  }

  lemma LetterIs(c: char)
    ensures c in LETTERS <==> 'a' <= c <= 'z'
  {
    if 'a' <= c <= 'z' { assert LETTERS[c as int - 'a' as int] == c; }
  }

  // The first position from i on without a name character.
  function NameEnd(t: string, i: nat): (r: nat)
    requires i <= |t|
    ensures i <= r <= |t|
    decreases |t| - i
  {
    if i < |t| && NameChar(t[i]) then NameEnd(t, i + 1) else i
  }

  // The position of the quote behind an equals sign, from position i on.
  function QuoteFrom(t: string, i: nat): (r: Option<nat>)
    requires i <= |t|
    ensures r.Some? ==> i < r.value < |t| && (t[r.value] == '"' || t[r.value] == '\'')
  {
    var equals := SpaceEnd(t, i);
    if At(t, equals) != '=' then None
    else
      var quote := SpaceEnd(t, equals + 1);
      if At(t, quote) != '"' && At(t, quote) != '\'' then None else Some(quote)
  }

  // The position of the quote that opens the value, in the text of an attribute.
  function OpeningQuote(t: string): (r: Option<nat>)
    ensures r.Some? ==> r.value < |t| && (t[r.value] == '"' || t[r.value] == '\'')
  {
    if t == "" || !NameStart(t[0]) then None else QuoteFrom(t, NameEnd(t, 1))
  }

  // Where the name ends and where the value starts and ends.
  datatype Span = Span(nameEnd: nat, valueStart: nat, valueEnd: nat)

  ghost predicate IsAttribute(t: string, span: Span) {
    && OpeningQuote(t).Some? && span.nameEnd == NameEnd(t, 1)
    && var quote := OpeningQuote(t).value;
       span.valueStart == quote + 1 <= span.valueEnd && FirstAt(t[quote + 1..], [t[quote]], span.valueEnd - (quote + 1))
  }

  // What PushAttribute prints behind the space, with an escaped value v, and what follows it.
  function Printed(name: string, v: string, rest: string): string {
    name + "=\"" + (v + ['"'] + rest)
  }

  lemma PrintedParts(name: string, v: string, rest: string)
    ensures var t := Printed(name, v, rest);
      && |name| + 2 + |v| <= |t| && t[..|name|] == name && t[|name| + 1] == '"'
      && t[|name| + 2..] == v + ['"'] + rest && t[|name| + 2..|name| + 2 + |v|] == v
  {
    var t := Printed(name, v, rest);
    assert t[|name| + 2..|name| + 2 + |v|] == t[|name| + 2..][..|v|];
  }

  ghost predicate IsName(name: string) {
    name != "" && NameStart(name[0]) && forall i :: 0 <= i < |name| ==> NameChar(name[i])
  }

  // Parsing an attribute as PushAttribute prints it finds its name and its value.
  lemma PrintedIsAttribute(name: string, value: string, rest: string)
    requires IsName(name) && CR !in value
    ensures var v := Escaped(value, false);
      IsAttribute(Printed(name, v, rest), Span(|name|, |name| + 2, |name| + 2 + |v|))
  {
    hide *;
    QuoteIsFlagged();
    var v := Escaped(value, false);
    ReadBack(value, false, '"', rest);
    PrintedParts(name, v, rest);
    OpeningIs(name, v, rest);
    QuotedIsAttribute(Printed(name, v, rest), |name|, v, v + ['"'] + rest);
  }

  lemma QuoteIsFlagged()
    ensures Flagged('"', false)
  {
  }

  lemma QuotedIsAttribute(t: string, n: nat, v: string, tail: string)
    requires OpeningQuote(t) == Some(n + 1) && NameEnd(t, 1) == n && t[n + 1] == '"'
    requires n + 2 <= |t| && t[n + 2..] == tail && FirstAt(tail, ['"'], |v|)
    ensures IsAttribute(t, Span(n, n + 2, n + 2 + |v|))
  {
    hide NameEnd, OpeningQuote, FirstAt;
  }

  lemma OpeningIs(name: string, v: string, rest: string)
    requires IsName(name)
    ensures var t := Printed(name, v, rest);
      NameEnd(t, 1) == |name| && OpeningQuote(t) == Some(|name| + 1)
  {
    var t := Printed(name, v, rest);
    assert t[|name|] == '=' && t[|name| + 1] == '"' && t[0] == name[0];
    assert forall k :: 0 <= k < |name| ==> t[k] == name[k];
    NameEndIs(t, 1, |name|);
  }

  lemma {:induction false} NameEndIs(t: string, i: nat, n: nat)
    requires i <= n < |t| && !NameChar(t[n]) && forall k :: i <= k < n ==> NameChar(t[k])
    ensures NameEnd(t, i) == n
    decreases n - i
  {
    if i < n { NameEndIs(t, i + 1, n); }
  }

  // Whatever span ParseDeep finds in a printed attribute, the pieces it marks are converted back to
  // the name and the value that were printed.
  lemma AttributeRoundTrip(name: string, value: string, rest: string, span: Span)
    requires IsName(name) && CR !in value && IsAttribute(Printed(name, Escaped(value, false), rest), span)
    ensures var t := Printed(name, Escaped(value, false), rest);
      && span.nameEnd <= span.valueStart <= span.valueEnd <= |t|
      && Result(t[..span.nameEnd], false, false, false) == name
      && Result(t[span.valueStart..span.valueEnd], true, true, false) == UpToZero(value)
  {
    hide *;
    QuoteIsFlagged();
    var v := Escaped(value, false);
    PrintedIsAttribute(name, value, rest);
    OneSpan(Printed(name, v, rest), span, Span(|name|, |name| + 2, |name| + 2 + |v|));
    ReadBack(value, false, '"', rest);
    PrintedParts(name, v, rest);
    Unflagged(name);
  }

  lemma Unflagged(name: string)
    requires IsName(name)
    ensures Result(name, false, false, false) == name
  {
    hide Converted;
    NothingFlagged(name);
    ZeroFree(name);
  }

  lemma OneSpan(t: string, a: Span, b: Span)
    requires IsAttribute(t, a) && IsAttribute(t, b)
    ensures a == b
  {
    hide FirstAt;
    var quote := OpeningQuote(t).value;
    OneFirst(t[quote + 1..], [t[quote]], a.valueEnd - (quote + 1), b.valueEnd - (quote + 1));
  }

  // ParseName
  method ParseName(pair: StrPair, p: nat, ghost zero: nat) returns (next: Option<nat>)
    requires CString(pair.mem, p, zero)
    modifies pair
    ensures var t := pair.mem[p..zero];
      && (next.Some? <==> t != "" && NameStart(t[0]))
      && (next.Some? ==> next.value == p + NameEnd(t, 1) && pair.start == p && pair.end == next.value && pair.needsFlush
                         && !pair.entities && !pair.newlines && !pair.collapse)
  {
    ghost var t := pair.mem[p..zero];
    if pair.mem[p] == NUL { return None; }
    if !NameStart(pair.mem[p]) { return None; }
    var i := p + 1;
    while pair.mem[i] != NUL && NameChar(pair.mem[i])
      invariant p < i <= zero && NameEnd(t, 1) == NameEnd(t, i - p)
      decreases zero - i
    {
      i := i + 1;
    }
    pair.start, pair.end := p, i;
    pair.needsFlush, pair.entities, pair.newlines, pair.collapse := true, false, false, false;
    next := Some(i);
  }

  class XMLAttribute {
    const name: StrPair
    const value: StrPair

    constructor (mem: array<char>)
      ensures fresh(name) && fresh(value) && name != value && name.mem == value.mem == mem
    {
      name := new StrPair(mem);
      value := new StrPair(mem);
    }

    // XMLAttribute::ParseDeep. The lines counted are those of the text that was looked at.
    method ParseDeep(p: nat, processEntities: bool, lines: int, ghost zero: nat)
      returns (next: Option<nat>, lines': int, ghost span: Span, ghost seen: nat)
      requires name != value && name.mem == value.mem && CString(name.mem, p, zero)
      modifies name, value
      ensures next.Some? ==>
        && IsAttribute(name.mem[p..zero], span) && next.value == p + span.valueEnd + 1
        && name.start == p && name.end == p + span.nameEnd && name.needsFlush && !name.entities && !name.newlines && !name.collapse
        && value.start == p + span.valueStart && value.end == p + span.valueEnd && value.needsFlush
        && value.entities == processEntities && value.newlines && !value.collapse && seen == span.valueEnd
      ensures next.None? ==> forall s: Span :: !IsAttribute(name.mem[p..zero], s)
      ensures p + seen <= zero && lines' == lines + LineFeeds(name.mem[p..zero][..seen])
    {
      hide *;
      InText(name.mem, p, zero);
      ghost var t := name.mem[p..zero];
      span := Span(0, 0, 0);
      var nameEnd, quote;
      nameEnd, quote, lines', seen := FindValue(p, lines, zero);
      NoQuoteNoAttribute(t);
      if quote.None? { return None, lines', span, seen; }
      var endTag := [name.mem[quote.value]];
      LaterCString(name.mem, p, quote.value + 1, zero);
      ghost var rest := t[seen..];
      next, lines' := value.ParseText(quote.value + 1, endTag, processEntities, true, false, lines', zero);
      if next.Some? {
        span := Span(nameEnd - p, quote.value + 1 - p, value.end - p);
        SpanIsAttribute(t, span, value.end - (quote.value + 1));
        LaterLines(name.mem, p, zero, quote.value + 1, value.end);
        seen := value.end - p;
      } else {
        NoTagNoAttribute(t, t[quote.value + 1 - p..], endTag);
        LaterLines(name.mem, p, zero, quote.value + 1, zero);
        seen := zero - p;
      }
    }

    // The first half of ParseDeep: the name, the equals sign and the opening quote.
    method FindValue(p: nat, lines: int, ghost zero: nat) returns (nameEnd: nat, quote: Option<nat>, lines': int, ghost seen: nat)
      requires CString(name.mem, p, zero)
      modifies name
      ensures var t := name.mem[p..zero];
        && (quote.Some? <==> OpeningQuote(t).Some?)
        && (quote.Some? ==>
              && quote.value == p + OpeningQuote(t).value < zero && nameEnd == p + NameEnd(t, 1)
              && t[quote.value - p] == name.mem[quote.value] != NUL && seen == quote.value + 1 - p
              && name.start == p && name.end == nameEnd && name.needsFlush && !name.entities && !name.newlines && !name.collapse)
      ensures p + seen <= zero && lines' == lines + LineFeeds(name.mem[p..zero][..seen])
    {
      hide CString, NameStart, NameEnd, QuoteFrom, LineFeeds;
      InText(name.mem, p, zero);
      ghost var t := name.mem[p..zero];
      nameEnd, quote, lines', seen := 0, None, lines, 0;
      NoLines(t);
      var nameRead := ParseName(name, p, zero);
      if nameRead.None? { return; }
      nameEnd := nameRead.value;
      AfterName(t);
      NoLinesInName(t);
      seen := nameEnd - p;
      if name.mem[nameEnd] == NUL { return; }
      quote, lines', seen := FindQuote(name.mem, nameEnd, lines, p, zero);
    }
  }

  // The white space, the equals sign and the quote behind a name.
  method FindQuote(mem: array<char>, p: nat, lines: int, ghost from: nat, ghost zero: nat)
    returns (quote: Option<nat>, lines': int, ghost seen: nat)
    requires CString(mem, from, zero) && from <= p <= zero
    ensures var t := mem[from..zero]; var q := QuoteFrom(t, p - from);
      && (quote.Some? <==> q.Some?)
      && (quote.Some? ==> quote.value == from + q.value < zero && mem[quote.value] == t[q.value] != NUL && seen == q.value + 1)
    ensures from + seen <= zero
    ensures lines' - LineFeeds(mem[from..zero][..seen]) == lines - LineFeeds(mem[from..zero][..p - from])
  {
    hide CString, SpaceEnd, LineFeeds;
    InText(mem, from, zero);
    ghost var t := mem[from..zero];
    quote := None;
    var equals;
    equals, lines' := SkipWhiteSpace(mem, p, lines, from, zero);
    seen := equals - from;
    if mem[equals] != '=' { return; }
    OneMoreChar(t, seen);
    var at;
    at, lines' := SkipWhiteSpace(mem, equals + 1, lines', from, zero);
    seen := at - from;
    if mem[at] != '"' && mem[at] != '\'' { return; }
    OneMoreChar(t, seen);
    seen := seen + 1;
    quote := Some(at);
  }

  // A name has no line feed in it.
  lemma NoLinesInName(t: string)
    requires t != "" && NameStart(t[0])
    ensures LineFeeds(t[..NameEnd(t, 1)]) == 0
  {
    hide LineFeeds;
    NoLines(t);
    OneMoreChar(t, 0);
    NoLinesUpTo(t, 1);
  }

  lemma {:induction false} NoLinesUpTo(t: string, i: nat)
    requires i <= |t|
    ensures LineFeeds(t[..NameEnd(t, i)]) == LineFeeds(t[..i])
    decreases |t| - i
  {
    hide LineFeeds;
    if i < |t| && NameChar(t[i]) {
      OneMoreChar(t, i);
      NoLinesUpTo(t, i + 1);
    }
  }

  // The lines of the text from p up to j are those up to i and those from there on.
  lemma LaterLines(mem: array<char>, p: nat, zero: nat, i: nat, j: nat)
    requires p <= i <= j <= zero <= mem.Length
    ensures LineFeeds(mem[p..zero][..j - p]) == LineFeeds(mem[p..zero][..i - p]) + LineFeeds(mem[i..j])
  {
    hide LineFeeds;
    var t := mem[p..zero];
    Window(mem[..], p, zero, i, j);
    assert mem[..][p..zero] == t && mem[..][i..j] == mem[i..j];
    TwoParts(t, i - p, j - p);
    LineFeedsAdd(t[..i - p], mem[i..j]);
  }

  lemma TwoParts(t: string, i: nat, j: nat)
    requires i <= j <= |t|
    ensures t[..j] == t[..i] + t[i..j]
  {
  }

  lemma {:induction false} LineFeedsAdd(a: string, b: string)
    ensures LineFeeds(a + b) == LineFeeds(a) + LineFeeds(b)
    decreases |b|
  {
    if b == "" {
      assert a + b == a;
    } else {
      var n := |b| - 1;
      assert (a + b)[..|a| + n] == a + b[..n] && (a + b)[|a| + n] == b[n];
      LineFeedsAdd(a, b[..n]);
    }
  }

  lemma AfterName(t: string)
    requires t != ""
    ensures NameEnd(t, 1) == |t| ==> OpeningQuote(t) == None
  {
  }

  lemma NoQuoteNoAttribute(t: string)
    ensures OpeningQuote(t).None? ==> forall s: Span :: !IsAttribute(t, s)
  {
  }

  lemma SpanIsAttribute(t: string, span: Span, n: nat)
    requires OpeningQuote(t).Some? && span.nameEnd == NameEnd(t, 1)
    requires var quote := OpeningQuote(t).value;
      span.valueStart == quote + 1 && span.valueEnd == quote + 1 + n && FirstAt(t[quote + 1..], [t[quote]], n)
    ensures IsAttribute(t, span)
  {
  }

  lemma NoTagNoAttribute(t: string, rest: string, tag: string)
    requires OpeningQuote(t).Some? && rest == t[OpeningQuote(t).value + 1..] && tag == [t[OpeningQuote(t).value]]
    requires forall k: nat :: !StandsAt(rest, tag, k)
    ensures forall s: Span :: !IsAttribute(t, s)
  {
    hide StandsAt;
  }

  lemma LaterCString(mem: array<char>, p: nat, q: nat, zero: nat)
    requires CString(mem, p, zero) && p <= q <= zero
    ensures CString(mem, q, zero) && mem[q..zero] == mem[p..zero][q - p..]
  {
  }
}
