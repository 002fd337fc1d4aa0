/** tinyxml2.cpp: what escaping a string writes, what a piece of markup stands for, and why the one
    undoes the other. Bytes are chars up to 255; C strings come without their final zero. */
module XmlEntities {
  import opened Options

  const NUL := '\0'
  const CR := '\r'
  const LF := '\n'

  datatype Entity = Entity(pattern: string, value: char)

  const ENTITIES := [Entity("quot", '"'), Entity("amp", '&'), Entity("apos", '\''), Entity("lt", '<'), Entity("gt", '>')]

  // _entityFlag and _restrictedEntityFlag
  predicate Flagged(c: char, restricted: bool) {
    c == '&' || c == '<' || c == '>' || (!restricted && (c == '"' || c == '\''))
  }

  // ---- escaping ----

  function EscapedChar(c: char, restricted: bool): string {
    if !Flagged(c, restricted) then [c]
    else if c == '"' then "&quot;"
    else if c == '&' then "&amp;"
    else if c == '\'' then "&apos;"
    else if c == '<' then "&lt;"
    else "&gt;"
  }

  function Escaped(s: string, restricted: bool): string {
    if s == "" then "" else EscapedChar(s[0], restricted) + Escaped(s[1..], restricted)
  }

  // What is printed is free of flagged characters but for the & of an entity: no closing quote in
  // an attribute value, no < in element text, no CR and no zero where there was none.
  lemma {:induction false} EscapedIsClean(s: string, restricted: bool)
    ensures forall i :: 0 <= i < |Escaped(s, restricted)| ==>
      var c := Escaped(s, restricted)[i]; c == '&' || !Flagged(c, restricted)
    ensures CR !in s ==> CR !in Escaped(s, restricted)
    ensures NUL !in s ==> NUL !in Escaped(s, restricted)
  {
    if s != "" {
      EscapedIsClean(s[1..], restricted);
      EscapedCharIsClean(s[0], restricted);
      assert s[0] in s && forall c :: c in s[1..] ==> c in s;
    }
  }

  lemma EscapedCharIsClean(c: char, restricted: bool)
    ensures var e := EscapedChar(c, restricted);
      forall i :: 0 <= i < |e| ==> (e[i] == '&' || !Flagged(e[i], restricted)) && (c != CR ==> e[i] != CR) && (c != NUL ==> e[i] != NUL)
  {
  }

  lemma {:induction false} EscapedSum(s: string, t: string, restricted: bool)
    ensures Escaped(s + t, restricted) == Escaped(s, restricted) + Escaped(t, restricted)
  {
    if s == "" {
      assert s + t == t;
    } else {
      EscapedSum(s[1..], t, restricted);
      assert (s + t)[1..] == s[1..] + t;
    }
  }

  // ---- UTF-8 ----

  // ConvertUTF32ToUTF8: (input | 0x80) & 0xBF, as a char, has the lower six bits of the input.
  function Continuation(input: nat): (c: char)
    ensures 0x80 <= c as int < 0xC0
  {
    (0x80 + input % 64) as char
  }

  function Utf8(input: nat): (r: string)
    ensures |r| <= 4
  {
    if input < 0x80 then [input as char]
    else if input < 0x800 then [(0xC0 + input / 64) as char, Continuation(input)]
    else if input < 0x10000 then [(0xE0 + input / 64 / 64) as char, Continuation(input / 64), Continuation(input)]
    else if input < 0x200000 then
      [(0xF0 + input / 64 / 64 / 64) as char, Continuation(input / 64 / 64), Continuation(input / 64), Continuation(input)]
    else []
  }

  // The number in the bits of one UTF-8 sequence.
  function Utf8Bits(s: string): Option<nat> {
    if |s| == 1 && s[0] as int < 0x80 then Some(s[0] as int)
    else if |s| == 2 && 0xC0 <= s[0] as int < 0xE0 && Trailing(s[1]) then
      Some((s[0] as int - 0xC0) * 64 + Low6(s[1]))
    else if |s| == 3 && 0xE0 <= s[0] as int < 0xF0 && Trailing(s[1]) && Trailing(s[2]) then
      Some(((s[0] as int - 0xE0) * 64 + Low6(s[1])) * 64 + Low6(s[2]))
    else if |s| == 4 && 0xF0 <= s[0] as int < 0xF8 && Trailing(s[1]) && Trailing(s[2]) && Trailing(s[3]) then
      Some((((s[0] as int - 0xF0) * 64 + Low6(s[1])) * 64 + Low6(s[2])) * 64 + Low6(s[3]))
    else None
  }

  // The numbers that have a UTF-8 sequence, and its length, by section 3 of RFC 3629: no surrogates,
  // nothing beyond 0x10FFFF, and no sequence longer than it has to be.
  predicate HasUtf8(n: nat) { n <= 0x10FFFF && !(0xD800 <= n <= 0xDFFF) }

  function Utf8Length(n: nat): nat {
    if n <= 0x7F then 1 else if n <= 0x7FF then 2 else if n <= 0xFFFF then 3 else 4
  }

  // The number that one UTF-8 sequence stands for.
  function Utf8Value(s: string): Option<nat> {
    var n := Utf8Bits(s);
    if n.Some? && HasUtf8(n.value) && |s| == Utf8Length(n.value) then n else None
  }

  predicate Trailing(c: char) { 0x80 <= c as int < 0xC0 }

  function Low6(c: char): nat
    requires Trailing(c)
  {
    c as int - 0x80
  }

  // What is written for a number is its UTF-8 sequence exactly when it has one; for the others below
  // 2^21 it is no UTF-8, and from there on nothing is written.
  lemma Utf8RoundTrip(input: nat)
    ensures Utf8Value(Utf8(input)) == Some(input) <==> HasUtf8(input)
    ensures !HasUtf8(input) ==> Utf8Value(Utf8(input)) == None
    ensures input < 0x200000 <==> Utf8(input) != []
  {
    Utf8Layout(input);
    hide Utf8, Utf8Bits;
  }

  lemma Utf8Layout(input: nat)
    ensures input < 0x200000 ==> Utf8Bits(Utf8(input)) == Some(input) && |Utf8(input)| == Utf8Length(input)
    ensures input >= 0x200000 ==> Utf8(input) == []
  {
    Digits64(input);
    Digits64(input / 64);
    Digits64(input / 64 / 64);
  }

  // Examples of section 7 of RFC 3629: a letter, the not identical and alpha signs, the first syllable
  // of a Korean word, and a character beyond 0xFFFF.
  lemma Utf8Examples()
    ensures Utf8(0x41) == [0x41 as char]
    ensures Utf8(0x391) == [0xCE as char, 0x91 as char]
    ensures Utf8(0x2262) == [0xE2 as char, 0x89 as char, 0xA2 as char]
    ensures Utf8(0xD55C) == [0xED as char, 0x95 as char, 0x9C as char]
    ensures Utf8(0x233B4) == [0xF0 as char, 0xA3 as char, 0x8E as char, 0xB4 as char]
  {
  }

  // The reference to a surrogate is taken for a character.
  lemma SurrogateExample()
    ensures CharacterRef("&#xD800;") == Reference(8, [0xED as char, 0xA0 as char, 0x80 as char])
    ensures Utf8Value([0xED as char, 0xA0 as char, 0x80 as char]) == None
  {
    var u := "&#xD800;";
    assert At(u, 2) == 'x' && At(u, 3) == 'D' && u[..7] == "&#xD800";
    hide Semicolon, Number, Utf8, Utf8Value;
    SemicolonAt7(u);
    NumberD800(u);
    SurrogateBytes();
  }

  lemma SurrogateBytes()
    ensures Utf8(0xD800) == [0xED as char, 0xA0 as char, 0x80 as char] && Utf8Value(Utf8(0xD800)) == None
  {
    hide Utf8Value, Utf8Bits;
    Utf8RoundTrip(0xD800);
  }

  lemma SemicolonAt7(u: string)
    requires u == "&#xD800;"
    ensures Semicolon(u, 3) == Some(7)
  {
    assert Semicolon(u, 7) == Some(7);
    assert Semicolon(u, 5) == Some(7);
  }

  lemma NumberD800(u: string)
    requires u == "&#xD800;"
    ensures Number(u, 7, 16, 'x', 1, 0) == Some(0xD800)
  {
    hide Number;
    OneDigit(u, 7, 16, 'x', 1, 0);
    OneDigit(u, 6, 16, 'x', 0x10, 0);
    OneDigit(u, 5, 16, 'x', 0x100, 0);
    OneDigit(u, 4, 16, 'x', 0x1000, 0x800);
    OneDigit(u, 3, 16, 'x', 0x10000, 0xD800);
  }

  lemma OneDigit(u: string, q: nat, base: nat, stop: char, mult: nat, ucs: nat)
    requires 0 < q <= |u|
    ensures u[q - 1] == stop ==> Number(u, q, base, stop, mult, ucs) == Some(ucs)
    ensures u[q - 1] != stop && Digit(u[q - 1], base).Some? ==>
      var d := Digit(u[q - 1], base).value;
      Number(u, q, base, stop, mult, ucs) ==
      Number(u, q - 1, base, stop, mult * base % UINT32, (ucs + mult * d % UINT32) % UINT64)
  {
  }

  lemma Digits64(n: nat)
    ensures n == n / 64 * 64 + n % 64
  {
  }

  // ---- numeric character references ----

  // The character at position i of a C string.
  function At(u: string, i: nat): char {
    if i < |u| then u[i] else NUL
  }

  function Digit(c: char, base: nat): Option<nat> {
    if '0' <= c <= '9' then Some(c as int - '0' as int)
    else if base == 16 && 'a' <= c <= 'f' then Some(c as int - 'a' as int + 10)
    else if base == 16 && 'A' <= c <= 'F' then Some(c as int - 'A' as int + 10)
    else None
  }

  const UINT32 := 0x1_0000_0000
  const UINT64 := 0x1_0000_0000_0000_0000

  // The digits before position q, read backwards up to the stop character: mult and the scaled
  // digits are unsigned int, the sum an unsigned long.
  function Number(u: string, q: nat, base: nat, stop: char, mult: nat, ucs: nat): Option<nat>
    requires q <= |u|
    decreases q
  {
    if q == 0 then None
    else if u[q - 1] == stop then Some(ucs)
    else
      var d := Digit(u[q - 1], base);
      if d.None? then None
      else Number(u, q - 1, base, stop, mult * base % UINT32, (ucs + mult * d.value % UINT32) % UINT64)
  }

  // The first semicolon from position i on.
  function Semicolon(u: string, i: nat): (r: Option<nat>)
    ensures r.Some? ==> i <= r.value < |u| && u[r.value] == ';'
    decreases |u| - i
  {
    if i >= |u| then None else if u[i] == ';' then Some(i) else Semicolon(u, i + 1)
  }

  // What GetCharacterRef returns for a text that starts with &#: null, or how much is read and what
  // is written. A lone &# at the end is read up to the &, and nothing is written for it.
  datatype Reference = NoReference | Reference(read: nat, bytes: string)

  function CharacterRef(u: string): Reference {
    if At(u, 2) == NUL then Reference(1, "")
    else
      var hex := At(u, 2) == 'x';
      var from := if hex then 3 else 2;
      if At(u, from) == NUL then NoReference
      else
        var semicolon := Semicolon(u, from);
        if semicolon.None? then NoReference
        else
          var n := Number(u, semicolon.value, if hex then 16 else 10, if hex then 'x' else '#', 1, 0);
          if n.None? then NoReference else Reference(semicolon.value + 1, Utf8(n.value))
  }

  // ---- one piece of text ----

  // What GetStr writes for it: bytes, or nothing at all, the write pointer passing over what is there.
  datatype Written = Bytes(s: string) | Kept

  predicate IsEntity(u: string, e: Entity) {
    |u| > |e.pattern| + 1 && u[1..|e.pattern| + 1] == e.pattern && u[|e.pattern| + 1] == ';'
  }

  // The first entity that matches, 5 for none.
  function FindEntity(u: string, i: nat): (r: nat)
    requires i <= 5
    ensures i <= r <= 5 && (r < 5 ==> IsEntity(u, ENTITIES[r]))
    ensures forall k :: i <= k < r ==> !IsEntity(u, ENTITIES[k])
    decreases 5 - i
  {
    if i == 5 then 5 else if IsEntity(u, ENTITIES[i]) then i else FindEntity(u, i + 1)
  }

  // How much of u is read in one round of the loop of GetStr, and what is written.
  datatype Piece = Piece(read: nat, written: Written)

  function NextPiece(u: string, entities: bool, newlines: bool): Piece
    requires u != ""
  {
    if newlines && u[0] == CR then Piece(if At(u, 1) == LF then 2 else 1, Bytes([LF]))
    else if newlines && u[0] == LF then Piece(if At(u, 1) == CR then 2 else 1, Bytes([LF]))
    else if entities && u[0] == '&' then
      if At(u, 1) == '#' then
        var r := CharacterRef(u);
        if r.NoReference? then Piece(1, Bytes("&")) else Piece(r.read, Bytes(r.bytes))
      else
        var i := FindEntity(u, 0);
        if i < 5 then Piece(|ENTITIES[i].pattern| + 2, Bytes([ENTITIES[i].value])) else Piece(1, Kept)
    else Piece(1, Bytes([u[0]]))
  }

  function WrittenLength(w: Written): nat {
    if w.Kept? then 1 else |w.s|
  }

  // A number that takes no digits is 0, which is one byte.
  lemma ShortNumber(u: string, q: nat, base: nat, stop: char)
    requires 0 < q <= |u| && u[q - 1] == stop
    ensures Number(u, q, base, stop, 1, 0) == Some(0)
  {
  }

  // The write pointer never passes the read pointer.
  lemma PieceShrinks(u: string, entities: bool, newlines: bool)
    requires u != ""
    ensures var piece := NextPiece(u, entities, newlines);
      1 <= piece.read <= |u| && WrittenLength(piece.written) <= piece.read
  {
    hide Number, Utf8;
    if entities && u[0] == '&' && At(u, 1) == '#' && At(u, 2) == ';' {
      ShortNumber(u, 2, 10, '#');
      Utf8RoundTrip(0);
      assert Utf8(0) == [0 as char] by { Utf8Zero(); }
    }
  }

  lemma Utf8Zero()
    ensures Utf8(0) == [NUL]
  {
  }
}
