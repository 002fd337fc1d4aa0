/** Numeric character references: what section 4.1 of XML 1.0 (Fifth Edition) calls one, the number
    its digits denote, and how the loops of GetCharacterRef in tinyxml2.cpp read it. */
module XmlReferences {
  import opened Options
  import opened Powers
  import opened XmlEntities

  predicate IsDigit(c: char, base: nat) { Digit(c, base).Some? }

  // The value of a digit is its place in the row of digits.
  lemma DigitIs(c: char, v: nat)
    ensures Digit(c, 10) == Some(v) <==> v < 10 && "0123456789"[v] == c
    ensures Digit(c, 16) == Some(v) <==> v < 16 && ("0123456789abcdef"[v] == c || "0123456789ABCDEF"[v] == c)
  {
  }

  predicate AllDigits(s: string, base: nat) {
    forall i :: 0 <= i < |s| ==> IsDigit(s[i], base)
  }

  // ---- the number that digits denote ----

  function Denoted(digits: string, base: nat): nat
    requires AllDigits(digits, base)
  {
    if digits == "" then 0
    else
      var n := |digits| - 1;
      Denoted(digits[..n], base) * base + Digit(digits[n], base).value
  }

  // A digit in front counts by its place.
  lemma {:induction false} DigitInFront(digits: string, base: nat)
    requires digits != "" && AllDigits(digits, base)
    ensures Denoted(digits, base) == Digit(digits[0], base).value * Power(base, |digits| - 1) + Denoted(digits[1..], base)
  {
    var n := |digits| - 1;
    if n == 0 {
      assert digits[..0] == "" && digits[1..] == "";
    } else {
      var init, tail, d := digits[..n], digits[1..], Digit(digits[0], base).value;
      DigitInFront(init, base);
      PowerStep(base, n);
      hide Digit, Power;
      assert init[1..] == tail[..n - 1] && tail[n - 1] == digits[n] && init[0] == digits[0];
      Distributed(d, Power(base, n - 1), Denoted(init[1..], base), base, Denoted(init, base));
    }
  }

  lemma Distributed(d: nat, p: nat, r: nat, base: nat, n: nat)
    requires n == d * p + r
    ensures n * base == d * (base * p) + r * base
  {
  }

  // Digits in front do not make a number smaller.
  lemma {:induction false} SuffixIsLess(digits: string, k: nat, base: nat)
    requires k <= |digits| && AllDigits(digits, base)
    ensures Denoted(digits[k..], base) <= Denoted(digits, base)
    decreases k
  {
    if k == 0 {
      assert digits[0..] == digits;
    } else {
      DigitInFront(digits, base);
      hide Denoted, Digit;
      SuffixIsLess(digits[1..], k - 1, base);
      assert digits[1..][k - 1..] == digits[k..];
      NotNegative(Digit(digits[0], base).value, Power(base, |digits| - 1));
    }
  }

  lemma NotNegative(a: nat, b: nat)
    ensures a * b >= 0
  {
  }

  // ---- wrapping arithmetic ----

  lemma ModuloProduct(a: nat, b: nat)
    ensures a % UINT32 * b % UINT32 == a * b % UINT32
  {
    var q, r := a / UINT32, a % UINT32;
    assert a == q * UINT32 + r;
    assert a * b == r * b + q * b * UINT32 by { Spread(q, r, b); }
    Multiple(r * b, q * b);
  }

  lemma Spread(q: nat, r: nat, b: nat)
    ensures (q * UINT32 + r) * b == r * b + q * b * UINT32
  {
  }

  lemma Multiple(a: nat, k: nat)
    ensures (a + k * UINT32) % UINT32 == a % UINT32
  {
    var q, r := a / UINT32, a % UINT32;
    assert a + k * UINT32 == (q + k) * UINT32 + r;
  }

  lemma SumStep(a: nat, x: nat, c: nat, y: nat)
    requires a % UINT32 == c % UINT32 && x % UINT32 == y % UINT32
    ensures (a + x % UINT32) % UINT64 % UINT32 == (y + c) % UINT32
  {
    var r, z := a % UINT32, x % UINT32;
    Narrowed(a + z);
    Multiple(r + z, a / UINT32);
    Multiple(r + z, c / UINT32 + y / UINT32);
  }

  lemma Narrowed(s: nat)
    ensures s % UINT64 % UINT32 == s % UINT32
  {
    var q, r := s / UINT64, s % UINT64;
    assert s == r + q * UINT32 * UINT32;
    Multiple(r, q * UINT32);
  }

  // ---- reading backwards ----

  // The digits from q on have been read, of those up to e.
  ghost predicate ReadFrom(digits: string, base: nat, mult: nat, ucs: nat, all: nat)
    requires AllDigits(digits, base)
  {
    && mult == Power(base, |digits|) % UINT32
    && ucs % UINT32 == Denoted(digits, base) % UINT32
    && (all < UINT32 ==> ucs == Denoted(digits, base))
  }

  lemma OneMoreRead(digits: string, base: nat, mult: nat, ucs: nat, all: nat)
    requires digits != "" && AllDigits(digits, base) && ReadFrom(digits[1..], base, mult, ucs, all) && Denoted(digits, base) <= all
    ensures var d := Digit(digits[0], base).value;
      ReadFrom(digits, base, mult * base % UINT32, (ucs + mult * d % UINT32) % UINT64, all)
  {
    var n, d, rest := |digits| - 1, Digit(digits[0], base).value, Denoted(digits[1..], base);
    DigitInFront(digits, base);
    PowerStep(base, n + 1);
    Swapped(Power(base, n), base);
    hide Denoted, Digit, AllDigits, Power;
    ModuloProduct(Power(base, n), base);
    NextSum(d, Power(base, n), mult, ucs, rest, Denoted(digits, base), all);
  }

  lemma NextSum(d: nat, p: nat, mult: nat, ucs: nat, rest: nat, n: nat, all: nat)
    requires mult == p % UINT32 && ucs % UINT32 == rest % UINT32 && (all < UINT32 ==> ucs == rest)
    requires n == d * p + rest <= all
    ensures var sum := (ucs + mult * d % UINT32) % UINT64;
      sum % UINT32 == n % UINT32 && (all < UINT32 ==> sum == n)
  {
    var x, y := mult * d, d * p;
    assert x % UINT32 == y % UINT32 by { ModuloProduct(p, d); Swapped(d, p); }
    SumStep(ucs, x, rest, y);
    if all < UINT32 { NarrowTerm(d, p, mult, x, y); }
  }

  lemma Swapped(a: nat, b: nat)
    ensures a * b == b * a
  {
  }

  // Below 2^32 nothing wraps: the digits too far in front are zeros.
  lemma NarrowTerm(d: nat, p: nat, mult: nat, x: nat, y: nat)
    requires mult == p % UINT32 && x == mult * d && y == d * p < UINT32
    ensures x % UINT32 == y
  {
    Small(y);
    if d == 0 {
      NoMultiple(mult, p, d);
    } else {
      AtLeast(d, p);
      Small(p);
      SameProduct(mult, p, d);
    }
  }

  lemma Small(a: nat)
    requires a < UINT32
    ensures a % UINT32 == a
  {
  }

  lemma SameProduct(a: nat, b: nat, d: nat)
    requires a == b
    ensures a * d == d * b
  {
  }

  lemma NoMultiple(a: nat, b: nat, d: nat)
    requires d == 0
    ensures a * d == d * b == 0
  {
  }

  lemma AtLeast(d: nat, p: nat)
    requires d > 0
    ensures p <= d * p
  {
    assert d * p == (d - 1) * p + p;
  }

  // The digits between the stop character and position e are read as the number they denote, when
  // it is below 2^32, and as one that differs by a multiple of 2^32 otherwise.
  lemma {:induction false} NumberReads(u: string, from: nat, q: nat, e: nat, base: nat, stop: char, mult: nat, ucs: nat) returns (w: nat)
    requires 0 < from <= q <= e <= |u| && u[from - 1] == stop && !IsDigit(stop, base) && AllDigits(u[from..e], base)
    requires AllDigits(u[q..e], base) && ReadFrom(u[q..e], base, mult, ucs, Denoted(u[from..e], base))
    ensures Number(u, q, base, stop, mult, ucs) == Some(w)
    ensures w % UINT32 == Denoted(u[from..e], base) % UINT32
    ensures Denoted(u[from..e], base) < UINT32 ==> w == Denoted(u[from..e], base)
    decreases q
  {
    if q == from {
      w := ucs;
    } else {
      var digits, all := u[q - 1..e], Denoted(u[from..e], base);
      assert digits == u[from..e][q - 1 - from..] && digits[0] == u[from..e][q - 1 - from] && digits[1..] == u[q..e];
      SuffixIsLess(u[from..e], q - 1 - from, base);
      OneMoreRead(digits, base, mult, ucs, all);
      hide Denoted, ReadFrom;
      var d := Digit(u[q - 1], base).value;
      w := NumberReads(u, from, q - 1, e, base, stop, mult * base % UINT32, (ucs + mult * d % UINT32) % UINT64);
    }
  }

  // ---- references ----

  // The base of a reference, the character in front of its digits, and where they start.
  function Base(u: string): nat { if At(u, 2) == 'x' then 16 else 10 }

  function Stop(base: nat): char { if base == 16 then 'x' else '#' }

  function First(u: string): nat { if At(u, 2) == 'x' then 3 else 2 }

  // The first position from i on without a digit.
  function DigitsEnd(u: string, i: nat, base: nat): (r: nat)
    requires i <= |u|
    ensures i <= r <= |u| && AllDigits(u[i..r], base) && (r < |u| ==> !IsDigit(u[r], base))
    decreases |u| - i
  {
    if i < |u| && IsDigit(u[i], base) then
      var r := DigitsEnd(u, i + 1, base);
      assert u[i..r] == [u[i]] + u[i + 1..r];
      r
    else i
  }

  // u starts with a reference: &#, digits and a semicolon, or &#x, hexadecimal digits and a semicolon.
  predicate IsReference(u: string) {
    && |u| > 3 && u[0] == '&' && u[1] == '#'
    && var e := DigitsEnd(u, First(u), Base(u)); First(u) < e < |u| && u[e] == ';'
  }

  // The position of its semicolon, and its number.
  function ReferenceEnd(u: string): (e: nat)
    requires IsReference(u)
    ensures First(u) < e < |u| && u[e] == ';' && AllDigits(u[First(u)..e], Base(u))
  {
    DigitsEnd(u, First(u), Base(u))
  }

  function ReferenceNumber(u: string): nat
    requires IsReference(u)
  {
    Denoted(u[First(u)..ReferenceEnd(u)], Base(u))
  }

  // A zero would end the string it stands in.
  predicate DenotesCharacter(n: nat) { n != 0 && HasUtf8(n) }

  // A reference to a character.
  predicate IsProper(u: string) {
    IsReference(u) && DenotesCharacter(ReferenceNumber(u))
  }

  // In its written form: which references denote a character, by the range of section 2.2 of XML 1.0 in
  // so far as a UTF-8 sequence can be written for it.
  lemma WrittenReference(hex: bool, digits: string, rest: string)
    requires digits != "" && AllDigits(digits, if hex then 16 else 10)
    ensures var n, u := Denoted(digits, if hex then 16 else 10), (if hex then "&#x" else "&#") + digits + ";" + rest;
      && IsReference(u) && ReferenceNumber(u) == n && ReferenceEnd(u) == |u| - |rest| - 1
      && (IsProper(u) <==> 0 < n < 0xD800 || 0xE000 <= n < 0x110000)
  {
    var base, from := if hex then 16 else 10, if hex then 3 else 2;
    var u := (if hex then "&#x" else "&#") + digits + ";" + rest;
    var e := from + |digits|;
    assert u[2] == if hex then 'x' else digits[0];
    assert u[0] == '&' && u[1] == '#' && u[e] == ';' && u[from..e] == digits;
    hide Denoted;
    assert First(u) == from && Base(u) == base;
    DigitsEndIs(u, from, e, base);
  }

  lemma {:induction false} DigitsEndIs(u: string, i: nat, e: nat, base: nat)
    requires i <= e < |u| && AllDigits(u[i..e], base) && !IsDigit(u[e], base)
    ensures DigitsEnd(u, i, base) == e
    decreases e - i
  {
    if i < e {
      assert u[i..e][0] == u[i] && u[i..e][1..] == u[i + 1..e];
      hide Digit;
      DigitsEndIs(u, i + 1, e, base);
    }
  }

  lemma {:induction false} SemicolonIs(u: string, i: nat, e: nat)
    requires i <= e < |u| && u[e] == ';' && forall k :: i <= k < e ==> u[k] != ';'
    ensures Semicolon(u, i) == Some(e)
    decreases e - i
  {
    if i < e { SemicolonIs(u, i + 1, e); }
  }

  lemma NothingRead(base: nat, all: nat)
    ensures ReadFrom("", base, 1, 0, all)
  {
  }

  // What GetCharacterRef makes of a reference: the number it denotes when that is below 2^32, else
  // one that differs from it by a multiple of 2^32.
  lemma ReferenceIsRead(u: string) returns (w: nat)
    requires IsReference(u)
    ensures CharacterRef(u) == Reference(ReferenceEnd(u) + 1, Utf8(w))
    ensures w % UINT32 == ReferenceNumber(u) % UINT32 && (ReferenceNumber(u) < UINT32 ==> w == ReferenceNumber(u))
  {
    var e, from, base := ReferenceEnd(u), First(u), Base(u);
    var digits := u[from..e];
    assert forall k :: from <= k < e ==> u[k] == digits[k - from];
    SemicolonIs(u, from, e);
    hide Semicolon, Number, Denoted, DigitsEnd, Utf8;
    NothingRead(base, Denoted(digits, base));
    assert u[e..e] == "";
    w := NumberReads(u, from, e, e, base, Stop(base), 1, 0);
    assert u[from] == digits[0];
  }

  lemma NarrowReference(u: string)
    requires IsReference(u) && ReferenceNumber(u) < UINT32
    ensures CharacterRef(u) == Reference(ReferenceEnd(u) + 1, Utf8(ReferenceNumber(u)))
  {
    hide CharacterRef, IsReference, ReferenceEnd, ReferenceNumber, Utf8;
    var w := ReferenceIsRead(u);
  }

  // A number of more than eight hexadecimal digits is cut off: what is written for it is an A.
  lemma WrappedExample()
    ensures var u := "&#x100000041;"; IsReference(u) && ReferenceNumber(u) == 0x100000041 && CharacterRef(u) == Reference(13, "A")
  {
    var u := "&#x100000041;";
    var t := "100000041";
    assert u[2] == 'x' && u[12] == ';' && u[3..12] == t && u[..12] == "&#x" + t;
    hide DigitsEnd, Denoted, Number, Semicolon, Utf8;
    WrappedEnd(u);
    assert forall k :: 3 <= k < 12 ==> u[k] == t[k - 3];
    SemicolonIs(u, 3, 12);
    WrappedDenoted();
    WrappedRead(u);
    assert Utf8(0x41) == "A" by { Ascii(0x41); }
  }

  lemma Ascii(n: nat)
    requires n < 0x80
    ensures Utf8(n) == [n as char]
  {
  }

  lemma WrappedEnd(u: string)
    requires u == "&#x100000041;"
    ensures DigitsEnd(u, 3, 16) == 12
  {
    var e := DigitsEnd(u, 3, 16);
    hide DigitsEnd;
    assert forall k :: 3 <= k < e ==> u[k] == u[3..e][k - 3];
    assert u[3] == '1' && u[4] == '0' && u[5] == '0' && u[6] == '0' && u[7] == '0' && u[8] == '0' && u[9] == '0';
    assert u[10] == '4' && u[11] == '1' && u[12] == ';';
  }

  lemma OneMoreDenoted(s: string, c: char, t: string, base: nat)
    requires AllDigits(s, base) && IsDigit(c, base) && t == s + [c]
    ensures AllDigits(t, base) && Denoted(t, base) == Denoted(s, base) * base + Digit(c, base).value
  {
    assert t[..|s|] == s;
  }

  lemma WrappedDenoted()
    ensures AllDigits("100000041", 16) && Denoted("100000041", 16) == 0x100000041
  {
    hide Denoted;
    assert Denoted("", 16) == 0 by { NoDigits(16); }
    OneMoreDenoted("", '1', "1", 16);
    OneMoreDenoted("1", '0', "10", 16);
    OneMoreDenoted("10", '0', "100", 16);
    OneMoreDenoted("100", '0', "1000", 16);
    OneMoreDenoted("1000", '0', "10000", 16);
    OneMoreDenoted("10000", '0', "100000", 16);
    OneMoreDenoted("100000", '0', "1000000", 16);
    OneMoreDenoted("1000000", '4', "10000004", 16);
    OneMoreDenoted("10000004", '1', "100000041", 16);
  }

  lemma NoDigits(base: nat)
    ensures Denoted("", base) == 0
  {
  }

  lemma WrappedRead(u: string)
    requires u == "&#x100000041;"
    ensures Number(u, 12, 16, 'x', 1, 0) == Some(0x41)
  {
    hide Number;
    OneDigit(u, 12, 16, 'x', 1, 0);
    OneDigit(u, 11, 16, 'x', 0x10, 1);
    OneDigit(u, 10, 16, 'x', 0x100, 0x41);
    OneDigit(u, 9, 16, 'x', 0x1000, 0x41);
    OneDigit(u, 8, 16, 'x', 0x10000, 0x41);
    WrappedRest(u);
  }

  lemma WrappedRest(u: string)
    requires u == "&#x100000041;"
    ensures Number(u, 7, 16, 'x', 0x100000, 0x41) == Some(0x41)
  {
    hide Number;
    OneDigit(u, 7, 16, 'x', 0x100000, 0x41);
    OneDigit(u, 6, 16, 'x', 0x1000000, 0x41);
    OneDigit(u, 5, 16, 'x', 0x10000000, 0x41);
    OneDigit(u, 4, 16, 'x', 0, 0x41);
    OneDigit(u, 3, 16, 'x', 0, 0x41);
  }

  // ---- what GetCharacterRef takes for a reference ----

  ghost predicate NoSemicolon(u: string, i: nat, j: nat) {
    forall k :: i <= k < j && k < |u| ==> u[k] != ';'
  }

  lemma {:induction false} SemicolonIsFirst(u: string, i: nat)
    requires Semicolon(u, i).Some?
    ensures NoSemicolon(u, i, Semicolon(u, i).value)
    decreases |u| - i
  {
    if u[i] != ';' { SemicolonIsFirst(u, i + 1); }
  }

  // The loop goes back to a stop character, with nothing but digits behind it.
  lemma {:induction false} NumberStops(u: string, q: nat, base: nat, stop: char, mult: nat, ucs: nat) returns (s: nat)
    requires q <= |u| && Number(u, q, base, stop, mult, ucs).Some?
    ensures s < q && u[s] == stop && AllDigits(u[s + 1..q], base)
    decreases q
  {
    if u[q - 1] == stop {
      s := q - 1;
    } else {
      var d := Digit(u[q - 1], base).value;
      s := NumberStops(u, q - 1, base, stop, mult * base % UINT32, (ucs + mult * d % UINT32) % UINT64);
      assert u[s + 1..q] == u[s + 1..q - 1] + [u[q - 1]];
    }
  }

  lemma DigitsInside(u: string, i: nat, j: nat, base: nat)
    requires i <= j <= |u| && AllDigits(u[i..j], base)
    ensures forall k :: i <= k < j ==> IsDigit(u[k], base)
  {
    assert forall k :: i <= k < j ==> u[k] == u[i..j][k - i];
  }

  // It reads up to the first semicolon, at e, and writes the number w of the digits behind the last
  // stop character, at s, which may come later than the digits of a reference start.
  lemma WhatIsRead(u: string) returns (s: nat, e: nat, w: nat)
    requires At(u, 0) == '&' && At(u, 1) == '#' && At(u, 2) != NUL && CharacterRef(u).Reference?
    ensures First(u) <= e < |u| && u[e] == ';' && NoSemicolon(u, First(u), e) && CharacterRef(u) == Reference(e + 1, Utf8(w))
    ensures First(u) - 1 <= s < e && u[s] == Stop(Base(u)) && AllDigits(u[s + 1..e], Base(u))
    ensures Denoted(u[s + 1..e], Base(u)) < UINT32 ==> w == Denoted(u[s + 1..e], Base(u))
  {
    var from, base := First(u), Base(u);
    e := Semicolon(u, from).value;
    SemicolonIsFirst(u, from);
    hide Semicolon, Number, Denoted, Utf8;
    s := NumberStops(u, e, base, Stop(base), 1, 0);
    DigitsInside(u, s + 1, e, base);
    NothingRead(base, Denoted(u[s + 1..e], base));
    assert u[e..e] == "";
    w := NumberReads(u, s + 1, e, e, base, Stop(base), 1, 0);
  }

  // And it reads whatever looks like that.
  lemma DigitsAreTaken(u: string, s: nat, e: nat)
    requires NUL !in u && |u| > 2 && u[0] == '&' && u[1] == '#'
    requires First(u) - 1 <= s < e < |u| && u[s] == Stop(Base(u)) && u[e] == ';'
    requires NoSemicolon(u, First(u), e) && AllDigits(u[s + 1..e], Base(u))
    ensures CharacterRef(u).Reference?
  {
    hide Semicolon, Number, Denoted, Utf8;
    SemicolonIs(u, First(u), e);
    NothingRead(Base(u), Denoted(u[s + 1..e], Base(u)));
    assert u[e..e] == "";
    var w := NumberReads(u, s + 1, e, e, Base(u), Stop(Base(u)), 1, 0);
    assert u[First(u)] in u;
  }
}
