/** The relay zone dwelling time of neighbor.cc: how many cells a vehicle has to go, in the compass
    direction it heads for, to leave the zone around an intersection. */
module Dwelling {
  import opened Morton
  import opened GeoMove

  // The compass direction of a heading in degrees, as GetDtime reads it.
  function Heading(direct: nat): GeoDirection {
    if 45 <= direct < 135 then East
    else if 225 <= direct < 315 then West
    else if 135 <= direct < 225 then South
    else North
  }

  // The quarter of the compass that the heading is in, each starting 45 degrees before its direction.
  lemma HeadingIs(direct: nat)
    requires direct < 360
    ensures Heading(direct) == match (direct + 45) / 90 % 4 case 0 => North case 1 => East case 2 => South case _ => West
  {
  }

  // The cell reached by n moves.
  function Gone(h: bv64, d: GeoDirection, n: nat): bv64 {
    if n == 0 then h else Shifted(Gone(h, d, n - 1), GEOHASH_STEP_BIT, Eastward(d), Northward(d))
  }

  // n is the least number of moves that leaves the zone.
  ghost predicate LeavesAfter(h: bv64, d: GeoDirection, n: nat, center: bv64) {
    (forall m: nat :: m < n ==> InZone(Gone(h, d, m), center)) && !InZone(Gone(h, d, n), center)
  }

  // g lies so many cells to the north and to the east of the center.
  ghost predicate At(g: bv64, center: bv64, north: int, east: int) {
    var s := GEOHASH_STEP_BIT;
    && Fits(g, s)
    && LatOf(g, s) == (LatOf(center, s) + north) % 4096
    && LonOf(g, s) == (LonOf(center, s) + east) % 4096
  }

  lemma ModularSum(n: int, a: int, b: int)
    ensures ((n + a) % 4096 + b) % 4096 == (n + (a + b)) % 4096
  {
    var q := (n + a) / 4096;
    var r := (n + a) % 4096 + b;
    assert n + (a + b) == r + 4096 * q;
    var p := r / 4096;
    assert n + (a + b) == 4096 * (p + q) + r % 4096;
  }

  lemma ShiftedAt(g: bv64, center: bv64, north: int, east: int, d: GeoDirection)
    requires At(g, center, north, east)
    ensures At(Shifted(g, GEOHASH_STEP_BIT, Eastward(d), Northward(d)), center, north + Northward(d), east + Eastward(d))
  {
    hide Fits, LatOf, LonOf, Shifted, Pow2;
    PowerOf12();
    ShiftedNumbers(g, GEOHASH_STEP_BIT, Eastward(d), Northward(d));
    ModularSum(LatOf(center, GEOHASH_STEP_BIT), north, Northward(d));
    ModularSum(LonOf(center, GEOHASH_STEP_BIT), east, Eastward(d));
  }

  lemma {:induction false} GoneAt(h: bv64, center: bv64, north: int, east: int, d: GeoDirection, n: nat)
    requires At(h, center, north, east)
    ensures At(Gone(h, d, n), center, north + n * Northward(d), east + n * Eastward(d))
  {
    hide *;
    GoneFurther(h, d, n);
    if n > 0 {
      GoneAt(h, center, north, east, d, n - 1);
      ShiftedAt(Gone(h, d, n - 1), center, north + (n - 1) * Northward(d), east + (n - 1) * Eastward(d), d);
      OneMore(n, Northward(d));
      OneMore(n, Eastward(d));
    }
  }

  lemma GoneFurther(h: bv64, d: GeoDirection, n: nat)
    ensures Gone(h, d, 0) == h
    ensures n > 0 ==> Gone(h, d, n) == Shifted(Gone(h, d, n - 1), GEOHASH_STEP_BIT, Eastward(d), Northward(d))
  {
    hide Shifted;
  }

  lemma OneMore(n: int, k: int)
    ensures (n - 1) * k + k == n * k
  {
  }

  lemma AtIsInZone(g: bv64, center: bv64, north: int, east: int)
    requires Fits(center, GEOHASH_STEP_BIT) && At(g, center, north, east) && -2 <= north <= 2 && -2 <= east <= 2
    ensures InZone(g, center) <==> -1 <= north <= 1 && -1 <= east <= 1
  {
    hide Fits, LatOf, LonOf, ZoneCell;
    if -1 <= north <= 1 && -1 <= east <= 1 {
      var i, j := 1 - north, east + 1;
      ZoneNumbers(center, i, j);
      SameNumbersSameHash(g, ZoneCell(center, i, j), GEOHASH_STEP_BIT);
    }
    if i, j :| 0 <= i < 3 && 0 <= j < 3 && ZoneCell(center, i, j) == g {
      ZoneNumbers(center, i, j);
      CloseBy(LatOf(center, GEOHASH_STEP_BIT), north, 1 - i);
      CloseBy(LonOf(center, GEOHASH_STEP_BIT), east, j - 1);
    }
  }

  // What GetDtime computes from the position in the zone.
  function Remaining(i: nat, j: nat, d: GeoDirection): int
    requires i < 3 && j < 3
  {
    match d
    case East => 3 - j
    case West => j + 1
    case South => 3 - i
    case _ => i + 1
  }

  // From row i, column j it takes that many moves, and no fewer, to be outside.
  lemma RemainingLeaves(center: bv64, i: nat, j: nat, direct: nat)
    requires Fits(center, GEOHASH_STEP_BIT) && i < 3 && j < 3
    ensures var r := Remaining(i, j, Heading(direct));
      1 <= r <= 3 && LeavesAfter(ZoneCell(center, i, j), Heading(direct), r, center)
  {
    hide Fits, LatOf, LonOf, ZoneCell, At, InZone, Gone;
    var h, d := ZoneCell(center, i, j), Heading(direct);
    var r := Remaining(i, j, d);
    InTheZoneAt(center, i, j);
    forall m: nat | m <= r
      ensures InZone(Gone(h, d, m), center) <==> m < r
    {
      GoneAt(h, center, 1 - i, j - 1, d, m);
      AtIsInZone(Gone(h, d, m), center, 1 - i + m * Northward(d), j - 1 + m * Eastward(d));
    }
  }

  lemma InTheZoneAt(center: bv64, i: nat, j: nat)
    requires Fits(center, GEOHASH_STEP_BIT) && i < 3 && j < 3
    ensures At(ZoneCell(center, i, j), center, 1 - i, j - 1)
  {
    hide Fits, LatOf, LonOf, ZoneCell;
    ZoneNumbers(center, i, j);
  }

  lemma OneLeavingTime(h: bv64, d: GeoDirection, n: nat, m: nat, center: bv64)
    requires LeavesAfter(h, d, n, center) && LeavesAfter(h, d, m, center)
    ensures n == m
  {
    hide Gone, InZone;
  }

  // The dwelling time: the least number of moves that leaves the zone, -1 outside of it.
  ghost function DwellingTime(h: bv64, direct: nat, center: bv64): int {
    if InZone(h, center) && exists n: nat :: LeavesAfter(h, Heading(direct), n, center) then
      var n: nat :| LeavesAfter(h, Heading(direct), n, center);
      n
    else -1
  }

  lemma DwellingTimeIs(center: bv64, i: nat, j: nat, direct: nat)
    requires Fits(center, GEOHASH_STEP_BIT) && i < 3 && j < 3
    ensures DwellingTime(ZoneCell(center, i, j), direct, center) == Remaining(i, j, Heading(direct))
  {
    hide Fits, Gone, ZoneCell, LeavesAfter, Remaining, Heading;
    RemainingLeaves(center, i, j, direct);
    var h, d := ZoneCell(center, i, j), Heading(direct);
    var n: nat :| LeavesAfter(h, d, n, center) && DwellingTime(h, direct, center) == n;
    OneLeavingTime(h, d, n, Remaining(i, j, d), center);
  }

  // What the dwelling time says, for every cell and heading.
  lemma DwellingTimeMeaning(h: bv64, direct: nat, center: bv64)
    requires Fits(center, GEOHASH_STEP_BIT)
    ensures !InZone(h, center) ==> DwellingTime(h, direct, center) == -1
    ensures InZone(h, center) ==>
      var n := DwellingTime(h, direct, center); 1 <= n <= 3 && LeavesAfter(h, Heading(direct), n, center)
  {
    hide Fits, Gone, ZoneCell, LeavesAfter, Remaining, Heading;
    if i, j :| 0 <= i < 3 && 0 <= j < 3 && ZoneCell(center, i, j) == h {
      DwellingTimeIs(center, i, j, direct);
      RemainingLeaves(center, i, j, direct);
    }
  }

  // ---- sets of any shape ----

  // The cells of a set, row by row.
  ghost function Rows(zone: array2<bv64>): (rows: seq<seq<bv64>>)
    reads zone
    ensures |rows| == zone.Length0 && forall i :: 0 <= i < |rows| ==> |rows[i]| == zone.Length1
    ensures forall i, j :: 0 <= i < zone.Length0 && 0 <= j < zone.Length1 ==> rows[i][j] == zone[i, j]
  {
    seq(zone.Length0, i requires 0 <= i < zone.Length0 reads zone =>
      seq(zone.Length1, j requires 0 <= j < zone.Length1 reads zone => zone[i, j]))
  }

  // Row i, column j comes before row k, column l.
  predicate Earlier(i: int, j: int, k: int, l: int) { i < k || (i == k && j < l) }

  // The cell at row i, column j, and nowhere before.
  ghost predicate FirstPlace(rows: seq<seq<bv64>>, h: bv64, i: nat, j: nat) {
    && i < |rows| && j < |rows[i]| && rows[i][j] == h
    && forall k, l :: 0 <= k < |rows| && 0 <= l < |rows[k]| && Earlier(k, l, i, j) ==> rows[k][l] != h
  }

  // What GetDtime computes from a place in a set of sy rows and sx columns.
  function RemainingIn(sx: int, sy: int, i: nat, j: nat, d: GeoDirection): int {
    match d
    case East => sx - j
    case West => j + 1
    case South => sy - i
    case _ => i + 1
  }

  // The time for the first place of the cell, -1 when it has none.
  ghost function TimeIn(rows: seq<seq<bv64>>, sx: int, sy: int, h: bv64, direct: nat): int {
    if exists i, j: nat :: FirstPlace(rows, h, i, j) then
      var i, j: nat :| FirstPlace(rows, h, i, j);
      RemainingIn(sx, sy, i, j, Heading(direct))
    else -1
  }

  lemma OneFirstPlace(rows: seq<seq<bv64>>, h: bv64, i: nat, j: nat, k: nat, l: nat)
    requires FirstPlace(rows, h, i, j) && FirstPlace(rows, h, k, l)
    ensures i == k && j == l
  {
    assert Earlier(i, j, k, l) || Earlier(k, l, i, j) || (i == k && j == l);
  }

  lemma TimeAt(rows: seq<seq<bv64>>, sx: int, sy: int, h: bv64, direct: nat, i: nat, j: nat)
    requires FirstPlace(rows, h, i, j)
    ensures TimeIn(rows, sx, sy, h, direct) == RemainingIn(sx, sy, i, j, Heading(direct))
  {
    hide FirstPlace, RemainingIn, Heading;
    var k, l: nat :| FirstPlace(rows, h, k, l) && TimeIn(rows, sx, sy, h, direct) == RemainingIn(sx, sy, k, l, Heading(direct));
    OneFirstPlace(rows, h, i, j, k, l);
  }

  // It is positive exactly for the cells of the set, and no longer than the longer side.
  lemma TimeInMeaning(rows: seq<seq<bv64>>, sx: int, sy: int, h: bv64, direct: nat)
    requires |rows| == sy && forall i :: 0 <= i < sy ==> |rows[i]| == sx
    ensures var t := TimeIn(rows, sx, sy, h, direct);
      t == -1 || (1 <= t && (t <= sx || t <= sy) && exists i, j: nat :: FirstPlace(rows, h, i, j))
  {
    hide Heading;
  }

  // For the zone around an intersection it is the dwelling time.
  lemma TimeInZone(zone: array2<bv64>, center: bv64, h: bv64, direct: nat)
    requires zone.Length0 == zone.Length1 == 3 && IsZone(zone, center) && Fits(center, GEOHASH_STEP_BIT)
    ensures TimeIn(Rows(zone), 3, 3, h, direct) == DwellingTime(h, direct, center)
  {
    hide Fits, ZoneCell, Heading, LeavesAfter, Gone;
    var rows := Rows(zone);
    DwellingTimeMeaning(h, direct, center);
    if InZone(h, center) {
      var i, j :| 0 <= i < 3 && 0 <= j < 3 && ZoneCell(center, i, j) == h;
      forall k: nat, l: nat | k < 3 && l < 3 && Earlier(k, l, i, j)
        ensures rows[k][l] != h
      {
        if ZoneCell(center, k, l) == h { ZoneCellsDistinct(center, i, j, k, l); }
      }
      TimeAt(rows, 3, 3, h, direct, i, j);
      DwellingTimeIs(center, i, j, direct);
    } else {
      NoPlace(rows, 3, 3, h, direct);
    }
  }

  // GetDtime
  method GetDtime(geohash: bv64, direct: nat, zone: GeoHashSetCoordinate) returns (dtime: int)
    requires zone.geohashset.Length0 == zone.sy && zone.geohashset.Length1 == zone.sx
    ensures dtime == if zone.sx != 3 && zone.sy != 3 then -1 else TimeIn(Rows(zone.geohashset), zone.sx, zone.sy, geohash, direct)
  {
    hide TimeIn, RemainingIn;
    if zone.sx != 3 && zone.sy != 3 { return -1; }
    ghost var rows := Rows(zone.geohashset);
    var i := 0;
    while i < zone.sy
      invariant 0 <= i <= zone.sy
      invariant forall k, l :: 0 <= k < i && 0 <= l < zone.sx ==> rows[k][l] != geohash
    {
      var j := 0;
      while j < zone.sx
        invariant 0 <= j <= zone.sx
        invariant forall l :: 0 <= l < j ==> rows[i][l] != geohash
      {
        if geohash == zone.geohashset[i, j] {
          assert FirstPlace(rows, geohash, i, j);
          TimeAt(rows, zone.sx, zone.sy, geohash, direct, i, j);
          RemainingIs(zone.sx, zone.sy, i, j, direct);
          if 45 <= direct && direct < 135 { return zone.sx - j; }
          if 225 <= direct && direct < 315 { return j + 1; }
          if 135 <= direct && direct < 225 { return zone.sy - i; }
          if 315 <= direct || direct < 45 { return i + 1; }
        }
        j := j + 1;
      }
      i := i + 1;
    }
    NoPlace(rows, zone.sx, zone.sy, geohash, direct);
    dtime := -1;
  }

  lemma RemainingIs(sx: int, sy: int, i: nat, j: nat, direct: nat)
    ensures RemainingIn(sx, sy, i, j, Heading(direct)) ==
      if 45 <= direct < 135 then sx - j else if 225 <= direct < 315 then j + 1 else if 135 <= direct < 225 then sy - i else i + 1
  {
  }

  lemma NoPlace(rows: seq<seq<bv64>>, sx: int, sy: int, h: bv64, direct: nat)
    requires forall k, l :: 0 <= k < |rows| && 0 <= l < |rows[k]| ==> rows[k][l] != h
    ensures TimeIn(rows, sx, sy, h, direct) == -1
  {
  }
}
