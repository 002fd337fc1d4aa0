/** geohash.c: encoding a point by bisection and by arithmetic, and decoding a hash both ways. Ranges
    and points are exact reals. */
module GeoHash {
  import opened Morton

  datatype Range = Range(min: real, max: real)

  class GeoHashBits {
    var bits: bv64
    var step: bv8

    constructor (bits: bv64, step: bv8)
      ensures this.bits == bits && this.step == step
    {
      this.bits, this.step := bits, step;
    }
  }

  class GeoHashArea {
    var bits: bv64
    var step: bv8
    var latitude: Range
    var longitude: Range

    constructor ()
    {
      bits, step, latitude, longitude := 0, 0, Range(0.0, 0.0), Range(0.0, 0.0);
    }
  }

  predicate InRange(r: Range, p: real) {
    r.min <= p <= r.max
  }

  // ---- bisection ----

  function Half(r: Range, upper: bool): Range {
    var mid := (r.max + r.min) / 2.0;
    if upper then Range(mid, r.max) else Range(r.min, mid)
  }

  // The cell with number c after s halvings; the last digit of c is the last choice.
  ghost function Cell(r: Range, c: nat, s: bv8): Range
    decreases s
  {
    if s == 0 then r else Half(Cell(r, c / 2, s - 1), c % 2 == 1)
  }

  // The number that bisection finds for p: the lower half is taken when p is in its middle or below.
  ghost function Code(r: Range, p: real, s: bv8): (c: nat)
    ensures c < Pow2(s)
    decreases s
  {
    hide Pow2;
    NextPower(s);
    if s == 0 then 0
    else
      var c := Code(r, p, s - 1);
      var cell := Cell(r, c, s - 1);
      2 * c + Bit(Upper(cell, p))
  }

  // The width of a cell.
  ghost function Unit(r: Range, s: bv8): (u: real)
    ensures r.min < r.max ==> u > 0.0
    decreases s
  {
    if s == 0 then r.max - r.min else Unit(r, s - 1) / 2.0
  }

  // Part number c of width u from min on.
  function Part(min: real, c: nat, u: real): Range {
    Range(min + c as real * u, min + (c as real + 1.0) * u)
  }

  // Cell c of s halvings is the c-th of 2^s equal parts.
  lemma {:induction false} CellIs(r: Range, c: nat, s: bv8)
    requires c < Pow2(s)
    ensures Cell(r, c, s) == Part(r.min, c, Unit(r, s))
    decreases s
  {
    if s == 0 {
      assert c == 0;
    } else {
      hide Half, Part;
      CellIs(r, c / 2, s - 1);
      HalfOfPart(r.min, c / 2, c % 2 == 1, Unit(r, s - 1));
      assert 2 * (c / 2) + Bit(c % 2 == 1) == c;
    }
  }

  lemma HalfOfPart(min: real, c: nat, upper: bool, u: real)
    ensures Half(Part(min, c, u), upper) == Part(min, 2 * c + Bit(upper), u / 2.0)
  {
    var x, h := c as real, u / 2.0;
    assert (2 * c + Bit(upper)) as real == if upper then 2.0 * x + 1.0 else 2.0 * x;
    Multiples(x, h);
    assert u == 2.0 * h;
  }

  lemma Multiples(x: real, h: real)
    ensures x * (2.0 * h) == 2.0 * x * h
    ensures (x + 1.0) * (2.0 * h) == 2.0 * x * h + 2.0 * h
    ensures (2.0 * x + 1.0) * h == 2.0 * x * h + h
    ensures (2.0 * x + 1.0 + 1.0) * h == 2.0 * x * h + 2.0 * h
  {
  }

  lemma {:induction false} UnitIs(r: Range, s: bv8)
    ensures Unit(r, s) * Pow2(s) as real == r.max - r.min
    decreases s
  {
    hide Pow2, Unit;
    NextPower(s);
    NextUnit(r, s);
    if s > 0 {
      UnitIs(r, s - 1);
      Halves(Unit(r, s), Pow2(s - 1), Unit(r, s - 1));
    }
  }

  lemma NextUnit(r: Range, s: bv8)
    ensures Unit(r, s) == if s == 0 then r.max - r.min else Unit(r, s - 1) / 2.0
  {
  }

  lemma Halves(u: real, n: nat, v: real)
    requires u == v / 2.0
    ensures u * (2 * n) as real == v * n as real
  {
    assert (2 * n) as real == 2.0 * n as real;
  }

  // The cell found holds the point, which is above its lower end unless that is the end of the range.
  lemma {:induction false} CodeHolds(r: Range, p: real, s: bv8)
    requires InRange(r, p)
    ensures InRange(Cell(r, Code(r, p, s), s), p)
    ensures p == Cell(r, Code(r, p, s), s).min ==> Code(r, p, s) == 0
    decreases s
  {
    if s > 0 {
      CodeHolds(r, p, s - 1);
      var c := Code(r, p, s - 1);
      assert Code(r, p, s) / 2 == c;
    }
  }

  // After i rounds: the digits found so far, and the cell they stand for.
  ghost predicate Halfway(latRange: Range, lonRange: Range, latitude: real, longitude: real, i: bv8,
                          bits: bv64, lat: Range, lon: Range)
  {
    && i <= 32 && Fits(bits, i)
    && LatOf(bits, i) == Code(latRange, latitude, i) && lat == Cell(latRange, Code(latRange, latitude, i), i)
    && LonOf(bits, i) == Code(lonRange, longitude, i) && lon == Cell(lonRange, Code(lonRange, longitude, i), i)
  }

  lemma NothingChosen(latRange: Range, lonRange: Range, latitude: real, longitude: real)
    ensures Halfway(latRange, lonRange, latitude, longitude, 0, 0, latRange, lonRange)
  {
  }

  lemma AllChosen(latRange: Range, lonRange: Range, latitude: real, longitude: real, i: bv8, bits: bv64, lat: Range, lon: Range)
    requires Halfway(latRange, lonRange, latitude, longitude, i, bits, lat, lon)
    ensures i <= 32 && Fits(bits, i)
    ensures LatOf(bits, i) == Code(latRange, latitude, i) && LonOf(bits, i) == Code(lonRange, longitude, i)
  {
  }

  predicate Upper(r: Range, p: real) {
    r.max - p < p - r.min
  }

  lemma Chosen(latRange: Range, lonRange: Range, latitude: real, longitude: real, i: bv8,
               bits: bv64, lat: Range, lon: Range, latBit: bv64, lonBit: bv64, lat': Range, lon': Range)
    requires Halfway(latRange, lonRange, latitude, longitude, i, bits, lat, lon) && i < 32 && latBit <= 1 && lonBit <= 1
    requires Upper(lat, latitude) == (latBit == 1) && lat' == Half(lat, latBit == 1)
    requires Upper(lon, longitude) == (lonBit == 1) && lon' == Half(lon, lonBit == 1)
    ensures Halfway(latRange, lonRange, latitude, longitude, i + 1, Push(bits, lonBit, latBit), lat', lon')
  {
    hide Fits, LatOf, LonOf, Code, Cell, Half, Upper, Push;
    Pushed(bits, i, lonBit, latBit);
    NextChoice(latRange, latitude, i, latBit == 1);
    NextChoice(lonRange, longitude, i, lonBit == 1);
  }

  // One more halving, of the cell found so far.
  lemma NextChoice(r: Range, p: real, i: bv8, upper: bool)
    requires i < 32 && upper == Upper(Cell(r, Code(r, p, i), i), p)
    ensures Code(r, p, i + 1) == 2 * Code(r, p, i) + Bit(upper)
    ensures Cell(r, Code(r, p, i + 1), i + 1) == Half(Cell(r, Code(r, p, i), i), upper)
  {
    hide Cell, Half;
    assert i + 1 != 0 && i + 1 - 1 == i;
    NextDigit(r, Code(r, p, i), i, upper);
  }

  lemma NextDigit(r: Range, c: nat, i: bv8, upper: bool)
    requires i < 32
    ensures Cell(r, 2 * c + Bit(upper), i + 1) == Half(Cell(r, c, i), upper)
  {
    hide Half;
    assert (2 * c + Bit(upper)) / 2 == c;
  }

  // The choice for one coordinate, in the body of the loop of geohash_encode.
  method Halve(range: Range, p: real) returns (half: Range, bit: bv64)
    ensures bit == (if Upper(range, p) then 1 else 0) && half == Half(range, Upper(range, p))
  {
    if range.max - p >= p - range.min {
      bit := 0;
      half := range.(max := (range.max + range.min) / 2.0);
    } else {
      bit := 1;
      half := range.(min := (range.max + range.min) / 2.0);
    }
  }

  // geohash_encode; hash is null or the place for the result.
  method Encode(latRange: Range, lonRange: Range, latitude: real, longitude: real, step: bv8, hash: GeoHashBits?)
    returns (rc: int)
    modifies hash
    ensures rc == if hash != null && 1 <= step <= 32 && InRange(latRange, latitude) && InRange(lonRange, longitude) then 0 else -1
    ensures hash != null && !(1 <= step <= 32) ==> hash.bits == old(hash.bits) && hash.step == old(hash.step)
    ensures hash != null && 1 <= step <= 32 ==> hash.step == step && (rc == -1 ==> hash.bits == 0)
    ensures hash != null && rc == 0 ==> Fits(hash.bits, step)
    ensures hash != null && rc == 0 ==> LatOf(hash.bits, step) == Code(latRange, latitude, step)
    ensures hash != null && rc == 0 ==> LonOf(hash.bits, step) == Code(lonRange, longitude, step)
    ensures hash != null && rc == 0 ==> InRange(Cell(latRange, LatOf(hash.bits, step), step), latitude)
    ensures hash != null && rc == 0 ==> InRange(Cell(lonRange, LonOf(hash.bits, step), step), longitude)
  {
    if hash == null || step > 32 || step == 0 { return -1; }
    hash.bits := 0;
    hash.step := step;
    if latitude < latRange.min || latitude > latRange.max || longitude < lonRange.min || longitude > lonRange.max {
      return -1;
    }
    hide Fits, Cell, Halfway, Half, Upper, LatOf, LonOf, Code, Push;
    CodeHolds(latRange, latitude, step);
    CodeHolds(lonRange, longitude, step);
    var lat, lon := latRange, lonRange;
    var i: bv8 := 0;
    NothingChosen(latRange, lonRange, latitude, longitude);
    while i < step
      invariant i <= step && hash.step == step && Halfway(latRange, lonRange, latitude, longitude, i, hash.bits, lat, lon)
      decreases step - i
    {
      lat, lon := EncodeRound(latRange, lonRange, latitude, longitude, i, lat, lon, hash);
      i := i + 1;
    }
    AllChosen(latRange, lonRange, latitude, longitude, i, hash.bits, lat, lon);
    rc := 0;
  }

  // One round of the loop of geohash_encode.
  method EncodeRound(ghost latRange: Range, ghost lonRange: Range, latitude: real, longitude: real, ghost i: bv8,
                     lat: Range, lon: Range, hash: GeoHashBits)
    returns (lat': Range, lon': Range)
    requires Halfway(latRange, lonRange, latitude, longitude, i, hash.bits, lat, lon) && i < 32
    modifies hash`bits
    ensures Halfway(latRange, lonRange, latitude, longitude, i + 1, hash.bits, lat', lon')
  {
    hide Halfway, Half, Upper, Push;
    var latBit, lonBit;
    lat', latBit := Halve(lat, latitude);
    lon', lonBit := Halve(lon, longitude);
    Chosen(latRange, lonRange, latitude, longitude, i, hash.bits, lat, lon, latBit, lonBit, lat', lon');
    hash.bits := Push(hash.bits, lonBit, latBit);
  }

  // ---- decoding by bisection ----

  // The first i digits of the hash.
  function Head(h: bv64, s: bv8, i: bv8): bv64
    requires i <= s <= 32
  {
    h >> (2 * (s - i))
  }

  // get_bit
  function GetBit(bits: bv64, pos: bv8): bv64
    requires pos < 64
  {
    (bits >> pos) & 1
  }

  lemma HeadShift(h: bv64, s: bv8, i: bv8)
    requires i < s <= 32
    ensures Rest(Head(h, s, i + 1)) == Head(h, s, i)
  {
  }

  lemma HeadBits(h: bv64, s: bv8, i: bv8)
    requires i < s <= 32
    ensures GetBit(h, (s - i) * 2 - 1) == 1 <==> LonBit(Head(h, s, i + 1))
    ensures GetBit(h, (s - i) * 2 - 2) == 1 <==> LatBit(Head(h, s, i + 1))
    ensures GetBit(h, (s - i) * 2 - 1) <= 1 && GetBit(h, (s - i) * 2 - 2) <= 1
    ensures i + 1 != 0 && i + 1 - 1 == i
  {
    hide LonBit, LatBit, Head;
    LonHeadBit(h, s, i);
    LatHeadBit(h, s, i);
  }

  lemma LonHeadBit(h: bv64, s: bv8, i: bv8)
    requires i < s <= 32
    ensures GetBit(h, (s - i) * 2 - 1) == 1 <==> LonBit(Head(h, s, i + 1))
  {
  }

  lemma LatHeadBit(h: bv64, s: bv8, i: bv8)
    requires i < s <= 32
    ensures GetBit(h, (s - i) * 2 - 2) == 1 <==> LatBit(Head(h, s, i + 1))
  {
  }

  lemma WholeHead(h: bv64, s: bv8)
    requires s <= 32
    ensures Head(h, s, s) == h
  {
  }

  // The cell of one more digit, in each coordinate.
  lemma NextLatitude(r: Range, head: bv64, head': bv64, i: bv8)
    requires i < 32 && Rest(head') == head
    ensures Cell(r, LatOf(head', i + 1), i + 1) == Half(Cell(r, LatOf(head, i), i), LatBit(head'))
  {
    hide *;
    assert i + 1 != 0 && i + 1 - 1 == i;
    LastDigits(head', i + 1);
    NextDigit(r, LatOf(head, i), i, LatBit(head'));
  }

  lemma NextLongitude(r: Range, head: bv64, head': bv64, i: bv8)
    requires i < 32 && Rest(head') == head
    ensures Cell(r, LonOf(head', i + 1), i + 1) == Half(Cell(r, LonOf(head, i), i), LonBit(head'))
  {
    hide *;
    assert i + 1 != 0 && i + 1 - 1 == i;
    LastDigits(head', i + 1);
    NextDigit(r, LonOf(head, i), i, LonBit(head'));
  }

  lemma HeadCell(latRange: Range, lonRange: Range, h: bv64, s: bv8, i: bv8)
    requires i < s <= 32
    ensures Cell(latRange, LatOf(Head(h, s, i + 1), i + 1), i + 1)
         == Half(Cell(latRange, LatOf(Head(h, s, i), i), i), LatBit(Head(h, s, i + 1)))
    ensures Cell(lonRange, LonOf(Head(h, s, i + 1), i + 1), i + 1)
         == Half(Cell(lonRange, LonOf(Head(h, s, i), i), i), LonBit(Head(h, s, i + 1)))
  {
    hide *;
    HeadShift(h, s, i);
    NextLatitude(latRange, Head(h, s, i), Head(h, s, i + 1), i);
    NextLongitude(lonRange, Head(h, s, i), Head(h, s, i + 1), i);
  }

  // The two digits looked at in round i.
  method DigitsAt(bits: bv64, step: bv8, i: bv8) returns (lonBit: bv64, latBit: bv64)
    requires i < step <= 32
    ensures lonBit <= 1 && latBit <= 1
    ensures (lonBit == 1 <==> LonBit(Head(bits, step, i + 1))) && (latBit == 1 <==> LatBit(Head(bits, step, i + 1)))
  {
    HeadBits(bits, step, i);
    lonBit := GetBit(bits, (step - i) * 2 - 1);
    latBit := GetBit(bits, (step - i) * 2 - 2);
  }

  method TakeHalf(range: Range, bit: bv64) returns (half: Range)
    requires bit <= 1
    ensures half == Half(range, bit == 1)
  {
    if bit == 0 {
      half := range.(max := (range.max + range.min) / 2.0);
    } else {
      half := range.(min := (range.max + range.min) / 2.0);
    }
  }

  // geohash_decode, for a hash of at most 32 steps
  method Decode(latRange: Range, lonRange: Range, bits: bv64, step: bv8, area: GeoHashArea?) returns (rc: int)
    requires step <= 32
    modifies area
    ensures rc == if area == null then -1 else 0
    ensures area != null ==> area.bits == bits && area.step == step
    ensures area != null ==> area.latitude == Cell(latRange, LatOf(bits, step), step)
    ensures area != null ==> area.longitude == Cell(lonRange, LonOf(bits, step), step)
  {
    if area == null { return -1; }
    assert Cell(latRange, 0, 0) == latRange && Cell(lonRange, 0, 0) == lonRange;
    assert LatOf(Head(bits, step, 0), 0) == 0 && LonOf(Head(bits, step, 0), 0) == 0;
    hide *;
    WholeHead(bits, step);
    area.bits := bits;
    area.step := step;
    var i: bv8 := 0;
    area.latitude := latRange;
    area.longitude := lonRange;
    while i < step
      invariant i <= step && area.bits == bits && area.step == step
      invariant area.latitude == Cell(latRange, LatOf(Head(bits, step, i), i), i)
      invariant area.longitude == Cell(lonRange, LonOf(Head(bits, step, i), i), i)
      decreases step - i
    {
      DecodeRound(latRange, lonRange, bits, step, i, area);
      i := i + 1;
    }
    rc := 0;
  }

  // One round of the loop of geohash_decode.
  method DecodeRound(ghost latRange: Range, ghost lonRange: Range, bits: bv64, step: bv8, i: bv8, area: GeoHashArea)
    requires i < step <= 32
    requires area.latitude == Cell(latRange, LatOf(Head(bits, step, i), i), i)
    requires area.longitude == Cell(lonRange, LonOf(Head(bits, step, i), i), i)
    modifies area`latitude, area`longitude
    ensures area.latitude == Cell(latRange, LatOf(Head(bits, step, i + 1), i + 1), i + 1)
    ensures area.longitude == Cell(lonRange, LonOf(Head(bits, step, i + 1), i + 1), i + 1)
  {
    hide *;
    HeadCell(latRange, lonRange, bits, step, i);
    var lonBit, latBit := DigitsAt(bits, step, i);
    var lat := TakeHalf(area.latitude, latBit);
    area.latitude := lat;
    var lon := TakeHalf(area.longitude, lonBit);
    area.longitude := lon;
  }

  // ---- by arithmetic ----

  predicate IsPoint(r: Range) { r.min == r.max }

  // Where p lies in the range: as a part of it, and in cells.
  function Fraction(r: Range, p: real): real
    requires !IsPoint(r)
  {
    (p - r.min) / (r.max - r.min)
  }

  function Offset(r: Range, p: real, s: bv8): real
    requires !IsPoint(r)
  {
    Fraction(r, p) * Pow2(s) as real
  }

  lemma {:induction false} PowersGrow(s: bv8, t: bv8)
    requires s < t
    ensures Pow2(s) < Pow2(t)
    decreases t
  {
    hide Pow2;
    NextPower(t);
    if s < t - 1 { PowersGrow(s, t - 1); }
  }

  lemma Quotient(a: real, b: real)
    requires 0.0 <= a <= b && 0.0 < b
    ensures 0.0 <= a / b <= 1.0 && a / b * b == a
  {
  }

  lemma AtMost(q: real, n: real, o: real)
    requires 0.0 <= q <= 1.0 && 0.0 <= n && o == q * n
    ensures 0.0 <= o <= n
  {
  }

  lemma FractionBound(r: Range, p: real)
    requires InRange(r, p) && !IsPoint(r)
    ensures 0.0 <= Fraction(r, p) <= 1.0
  {
    Quotient(p - r.min, r.max - r.min);
  }

  lemma FloorBelow(o: real, n: nat)
    requires 0.0 <= o <= n as real
    ensures 0 <= o.Floor <= n
  {
  }

  lemma OffsetIs(r: Range, p: real, s: bv8)
    requires !IsPoint(r)
    ensures Offset(r, p, s) == Fraction(r, p) * Pow2(s) as real
  {
  }

  lemma OffsetBound(r: Range, p: real, s: bv8)
    requires InRange(r, p) && !IsPoint(r) && s < 32
    ensures 0 <= Offset(r, p, s).Floor < Pow2(32)
  {
    hide Pow2, Fraction, Offset;
    FractionBound(r, p);
    PowersGrow(s, 32);
    OffsetIs(r, p, s);
    AtMost(Fraction(r, p), Pow2(s) as real, Offset(r, p, s));
    FloorBelow(Offset(r, p, s), Pow2(s));
  }

  lemma Product(q: real, n: real, u: real, d: real)
    requires u * n == d
    ensures q * n * u == q * d
  {
  }

  // So many units.
  function Scaled(o: real, u: real): real { o * u }

  lemma OffsetInUnits(r: Range, p: real, s: bv8)
    requires InRange(r, p) && !IsPoint(r)
    ensures Scaled(Offset(r, p, s), Unit(r, s)) == p - r.min
  {
    hide Pow2, Unit;
    UnitIs(r, s);
    Quotient(p - r.min, r.max - r.min);
    Product(Fraction(r, p), Pow2(s) as real, Unit(r, s), r.max - r.min);
  }

  lemma Cancel(a: real, b: real, u: real, x: real, y: real)
    requires 0.0 < u && x == a * u && y == b * u
    ensures x <= y ==> a <= b
    ensures x == y ==> a == b
  {
    if a > b { Positive(a - b, u); }
    if a < b { Positive(b - a, u); }
  }

  lemma Positive(d: real, u: real)
    requires d > 0.0 && u > 0.0
    ensures d * u > 0.0
  {
  }

  // The point lies at the lower end of the range or inside a cell, not on a border.
  predicate Inside(r: Range, p: real, s: bv8)
    requires !IsPoint(r)
  {
    Offset(r, p, s) == 0.0 || Offset(r, p, s) != Offset(r, p, s).Floor as real
  }

  // The offset of a point lies between the borders of its cell, above the lower one but for cell 0.
  lemma OffsetInCell(r: Range, p: real, s: bv8)
    requires InRange(r, p) && !IsPoint(r)
    ensures var c, o := Code(r, p, s) as real, Offset(r, p, s);
      c <= o <= c + 1.0 && (c == o ==> c == 0.0)
  {
    hide Offset, Cell, Code, Unit, Part, Scaled;
    CodeHolds(r, p, s);
    CellIs(r, Code(r, p, s), s);
    OffsetInUnits(r, p, s);
    Squeezed(r.min, p, Code(r, p, s), Offset(r, p, s), Unit(r, s));
  }

  lemma Squeezed(min: real, p: real, c: nat, o: real, u: real)
    requires u > 0.0 && Scaled(o, u) == p - min
    requires InRange(Part(min, c, u), p) && (p == Part(min, c, u).min ==> c == 0)
    ensures var c := c as real; c <= o <= c + 1.0 && (c == o ==> c == 0.0)
  {
    var c' := c as real;
    var x, y, z := c' * u, o * u, (c' + 1.0) * u;
    Cancel(c', o, u, x, y);
    Cancel(o, c' + 1.0, u, y, z);
    if c' == o { assert x == y; }
  }

  lemma FloorBetween(c: nat, o: real)
    requires c as real <= o <= c as real + 1.0
    ensures o.Floor == c <==> o < c as real + 1.0
    ensures o == o.Floor as real <==> o == c as real || o == c as real + 1.0
  {
  }

  // Bisection puts a border point into the cell below, arithmetic into the one above.
  lemma FloorIsCode(r: Range, p: real, s: bv8)
    requires InRange(r, p) && !IsPoint(r)
    ensures Offset(r, p, s).Floor == Code(r, p, s) <==> Inside(r, p, s)
  {
    hide Offset, Code;
    OffsetInCell(r, p, s);
    FloorBetween(Code(r, p, s), Offset(r, p, s));
  }

  // geohash_fast_encode. At 31 and 32 steps the shift 1 << step leaves the int it is done in, and a
  // range that is a point makes it divide zero by zero: whatever comes of that is in the hash.
  method FastEncode(latRange: Range, lonRange: Range, latitude: real, longitude: real, step: bv8, hash: GeoHashBits?)
    returns (rc: int)
    modifies hash
    ensures rc == if hash != null && 1 <= step <= 32 && InRange(latRange, latitude) && InRange(lonRange, longitude) then 0 else -1
    ensures hash != null && !(1 <= step <= 32) ==> hash.bits == old(hash.bits) && hash.step == old(hash.step)
    ensures hash != null && 1 <= step <= 32 ==> hash.step == step && (rc == -1 ==> hash.bits == 0)
    ensures hash != null && rc == 0 && step <= 30 && !IsPoint(latRange) && !IsPoint(lonRange) ==>
      && LatOf(hash.bits, 32) == Offset(latRange, latitude, step).Floor
      && LonOf(hash.bits, 32) == Offset(lonRange, longitude, step).Floor
  {
    if hash == null || step > 32 || step == 0 { return -1; }
    hash.bits := 0;
    hash.step := step;
    if latitude < latRange.min || latitude > latRange.max || longitude < lonRange.min || longitude > lonRange.max {
      return -1;
    }
    hide Interleave64, Deinterleave64, LatOf, LonOf, Value, Pow2, ToUint32, Offset;
    if step > 30 || IsPoint(latRange) || IsPoint(lonRange) {
      var undefined: bv64 := *;
      hash.bits := undefined;
      return 0;
    }
    OffsetBound(latRange, latitude, step);
    OffsetBound(lonRange, longitude, step);
    var ilato := ToUint32(Offset(latRange, latitude, step).Floor);
    var ilono := ToUint32(Offset(lonRange, longitude, step).Floor);
    Uint32Value(Offset(latRange, latitude, step).Floor, 32);
    Uint32Value(Offset(lonRange, longitude, step).Floor, 32);
    InterleaveKeeps(ilato, ilono, 32);
    hash.bits := Interleave64(ilato, ilono);
    rc := 0;
  }

  // At the middle of the range the two already differ after one step.
  lemma BorderExample()
    ensures var r := Range(-90.0, 90.0); Code(r, 0.0, 1) == 0 && Offset(r, 0.0, 1).Floor == 1
  {
    PowersUpTo4();
    assert Cell(Range(-90.0, 90.0), 0, 0) == Range(-90.0, 90.0);
  }

  // What the two encoders write is the same exactly for the points inside a cell.
  lemma SameEncoding(latRange: Range, lonRange: Range, latitude: real, longitude: real, step: bv8, slow: bv64, fast: bv64)
    requires step <= 32 && InRange(latRange, latitude) && InRange(lonRange, longitude)
    requires !IsPoint(latRange) && !IsPoint(lonRange)
    requires Fits(slow, step)
    requires LatOf(slow, step) == Code(latRange, latitude, step) && LonOf(slow, step) == Code(lonRange, longitude, step)
    requires LatOf(fast, 32) == Offset(latRange, latitude, step).Floor && LonOf(fast, 32) == Offset(lonRange, longitude, step).Floor
    ensures slow == fast <==> Inside(latRange, latitude, step) && Inside(lonRange, longitude, step)
  {
    AllFit(slow);
    AllFit(fast);
    hide *;
    FloorIsCode(latRange, latitude, step);
    FloorIsCode(lonRange, longitude, step);
    Widen(slow, step, 32);
    if LatOf(slow, 32) == LatOf(fast, 32) && LonOf(slow, 32) == LonOf(fast, 32) { SameNumbersSameHash(slow, fast, 32); }
  }

  lemma AllFit(h: bv64)
    ensures Fits(h, 32)
  {
  }

  // One end of a cell by arithmetic: the n-th of 2^s equal steps through the range.
  function Border(r: Range, n: nat, s: bv8): real {
    r.min + n as real / Pow2(s) as real * (r.max - r.min)
  }

  // geohash_fast_decode. The numbers and the increments are uint32_t.
  method FastDecode(latRange: Range, lonRange: Range, bits: bv64, step: bv8, area: GeoHashArea?) returns (rc: int)
    requires step <= 32
    modifies area
    ensures rc == if area == null then -1 else 0
    ensures area != null ==> area.bits == bits && area.step == step
    ensures area != null ==> area.latitude == Range(Border(latRange, LatOf(bits, 32), step), Border(latRange, Successor(LatOf(bits, 32)), step))
    ensures area != null ==> area.longitude == Range(Border(lonRange, LonOf(bits, 32), step), Border(lonRange, Successor(LonOf(bits, 32)), step))
  {
    hide Deinterleave64, Low, High, Value, LatOf, LonOf, Pow2, Border, Successor;
    if area == null { return -1; }
    area.bits := bits;
    area.step := step;
    var xyhilo := Deinterleave64(bits);
    var ilato := Low(xyhilo);
    var ilono := High(xyhilo);
    DeinterleaveReads(bits, 32);
    IncrementWraps(ilato);
    IncrementWraps(ilono);
    area.latitude := Range(Border(latRange, Value(ilato, 32), step), Border(latRange, Value(ilato + 1, 32), step));
    area.longitude := Range(Border(lonRange, Value(ilono, 32), step), Border(lonRange, Value(ilono + 1, 32), step));
    rc := 0;
  }

  const MAX_UINT32 := 0xFFFFFFFF

  // Adding 1 to a uint32_t.
  function Successor(n: nat): nat {
    if n == MAX_UINT32 then 0 else n + 1
  }

  lemma IncrementWraps(x: bv32)
    ensures Value(x + 1, 32) == Successor(Value(x, 32))
  {
    hide Value, AllOnes, Pow2;
    AllOnesIs(x);
    LargestValue(x, 32);
    PowerOf32();
    if x == 0xFFFFFFFF {
      ZeroValue(32);
    } else {
      Increment(x, 32);
    }
  }

  lemma DividedUnit(n: real, p: real, u: real, d: real)
    requires p != 0.0 && u * p == d
    ensures n / p * d == n * u
  {
    var q := n / p;
    assert q * p == n;
    Reorder(q, u, p);
  }

  lemma Reorder(q: real, u: real, p: real)
    ensures q * (u * p) == q * p * u
  {
  }

  lemma BorderIs(r: Range, n: nat, s: bv8)
    ensures Border(r, n, s) == r.min + n as real * Unit(r, s)
  {
    hide Unit, Pow2;
    UnitIs(r, s);
    DividedUnit(n as real, Pow2(s) as real, Unit(r, s), r.max - r.min);
  }

  lemma NoWidth(r: Range, s: bv8, n: nat)
    requires n > 0
    ensures n as real * Unit(r, s) == 0.0 <==> IsPoint(r)
  {
    UnitIs(r, s);
    hide Unit, Pow2;
    var u, p := Unit(r, s), Pow2(s) as real;
    if u == 0.0 { assert u * p == 0.0; } else { NonZero(n as real, u); }
    if IsPoint(r) && u != 0.0 { NonZero(p, u); }
  }

  lemma NonZero(a: real, b: real)
    requires a > 0.0 && b != 0.0
    ensures a * b != 0.0 && b * a != 0.0
  {
    if b > 0.0 { Positive(a, b); } else { Positive(a, -b); }
  }

  // The cell that bisection finds and the one that arithmetic finds are the same unless adding 1 to
  // the number of the cell wraps around.
  lemma SameCell(r: Range, c: nat, s: bv8)
    requires s <= 32 && c < Pow2(s)
    ensures Cell(r, c, s) == Range(Border(r, c, s), Border(r, Successor(c), s)) <==> c != MAX_UINT32 || IsPoint(r)
  {
    hide Cell, Border, Unit, Pow2;
    CellIs(r, c, s);
    BorderIs(r, c, s);
    BorderIs(r, Successor(c), s);
    NoWidth(r, s, c + 1);
    assert (c + 1) as real == c as real + 1.0;
    if c == MAX_UINT32 { assert Successor(c) as real * Unit(r, s) == 0.0; }
  }

  // What the two decoders write is the same for every hash below 4^step, but for a cell number of
  // 2^32 - 1, which there is at 32 steps only.
  lemma SameDecoding(latRange: Range, lonRange: Range, bits: bv64, step: bv8)
    requires step <= 32 && Fits(bits, step)
    ensures Cell(latRange, LatOf(bits, step), step)
         == Range(Border(latRange, LatOf(bits, 32), step), Border(latRange, Successor(LatOf(bits, 32)), step))
        <==> LatOf(bits, step) != MAX_UINT32 || IsPoint(latRange)
    ensures Cell(lonRange, LonOf(bits, step), step)
         == Range(Border(lonRange, LonOf(bits, 32), step), Border(lonRange, Successor(LonOf(bits, 32)), step))
        <==> LonOf(bits, step) != MAX_UINT32 || IsPoint(lonRange)
    ensures step < 32 ==> LatOf(bits, step) != MAX_UINT32 && LonOf(bits, step) != MAX_UINT32
  {
    hide *;
    Widen(bits, step, 32);
    SameCell(latRange, LatOf(bits, step), step);
    SameCell(lonRange, LonOf(bits, step), step);
    if step < 32 { NotLast(step); }
  }

  lemma NotLast(s: bv8)
    requires s < 32
    ensures Pow2(s) <= MAX_UINT32
  {
    PowerOf32();
    PowersGrow(s, 32);
  }

  // It is possible: in the last cell of the map at 32 steps the fast decoder has the ranges end where
  // the map begins.
  lemma LastCellExample()
    ensures var bits, lat, lon := 0xFFFFFFFFFFFFFFFF, Range(-90.0, 90.0), Range(-180.0, 180.0);
      && Fits(bits, 32) && LatOf(bits, 32) == LonOf(bits, 32) == MAX_UINT32
      && Cell(lat, LatOf(bits, 32), 32).max == 90.0 && Border(lat, Successor(LatOf(bits, 32)), 32) == -90.0
      && Cell(lon, LonOf(bits, 32), 32).max == 180.0 && Border(lon, Successor(LonOf(bits, 32)), 32) == -180.0
  {
    LastCell();
    LastCellEnds(Range(-90.0, 90.0));
    LastCellEnds(Range(-180.0, 180.0));
  }

  lemma LastCell()
    ensures Fits(0xFFFFFFFFFFFFFFFF, 32) && LatOf(0xFFFFFFFFFFFFFFFF, 32) == LonOf(0xFFFFFFFFFFFFFFFF, 32) == MAX_UINT32
  {
    assert Interleave64(0xFFFFFFFF, 0xFFFFFFFF) == 0xFFFFFFFFFFFFFFFF;
    hide *;
    AllFit(0xFFFFFFFFFFFFFFFF);
    InterleaveKeeps(0xFFFFFFFF, 0xFFFFFFFF, 32);
    AllOnesIs(0xFFFFFFFF);
    LargestValue(0xFFFFFFFF, 32);
    PowerOf32();
  }

  lemma LastCellEnds(r: Range)
    ensures Cell(r, MAX_UINT32, 32).max == r.max && Border(r, Successor(MAX_UINT32), 32) == r.min
  {
    hide Cell, Border, Unit, Pow2;
    PowerOf32();
    CellIs(r, MAX_UINT32, 32);
    UnitIs(r, 32);
    BorderIs(r, 0, 32);
    assert MAX_UINT32 as real + 1.0 == Pow2(32) as real;
  }
}
