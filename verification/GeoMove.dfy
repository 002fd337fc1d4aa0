/** geohash.c: moving by one cell inside an interleaved geohash, and the 3 x 3 zone around a cell. */
module GeoMove {
  import opened Morton
  import opened GeoHash

  const GEOHASH_STEP_BIT: bv8 := 12

  // The digits of one coordinate in a geohash of so many steps.
  function EvenDigits(step: bv8): bv64
    requires 1 <= step <= 32
  {
    0x5555555555555555 >> (64 - step * 2)
  }

  function OddDigits(step: bv8): bv64
    requires 1 <= step <= 32
  {
    0xaaaaaaaaaaaaaaaa >> (64 - step * 2)
  }

  // One more or less, carried across the digits in zz, which belong to the other coordinate.
  function Stepped(digits: bv64, zz: bv64, up: bool): bv64 {
    if up then digits + (zz + 1) else (digits | zz) - (zz + 1)
  }

  function LonDigits(h: bv64): bv64 { h & 0xaaaaaaaaaaaaaaaa }

  function LatDigits(h: bv64): bv64 { h & 0x5555555555555555 }

  function Merged(x: bv64, y: bv64): bv64 { x | y }

  function Masked(x: bv64, digits: bv64): bv64 { x & digits }

  // ---- one coordinate moved, the other left alone ----

  function NextX(h: bv64, step: bv8, up: bool): bv64
    requires 1 <= step <= 32
  {
    Merged(Masked(Stepped(LonDigits(h), EvenDigits(step), up), OddDigits(step)), LatDigits(h))
  }

  function NextY(h: bv64, step: bv8, up: bool): bv64
    requires 1 <= step <= 32
  {
    Merged(LonDigits(h), Masked(Stepped(LatDigits(h), OddDigits(step), up), EvenDigits(step)))
  }

  function MovedX(h: bv64, step: bv8, d: int): bv64
    requires 1 <= step <= 32
  {
    if d == 0 then h else NextX(h, step, d > 0)
  }

  function MovedY(h: bv64, step: bv8, d: int): bv64
    requires 1 <= step <= 32
  {
    if d == 0 then h else NextY(h, step, d > 0)
  }

  // For a hash below 4^step: the cell h' lies so many cells to the east and north of h, around the
  // whole map.
  ghost predicate CellShifted(h: bv64, h': bv64, step: bv8, east: int, north: int)
    requires 1 <= step <= 32
  {
    Fits(h, step) ==>
      && Fits(h', step)
      && LatOf(h', step) == (LatOf(h, step) + north) % Pow2(step)
      && LonOf(h', step) == (LonOf(h, step) + east) % Pow2(step)
  }

  lemma XShiftsCell(h: bv64, step: bv8, d: int)
    requires 1 <= step <= 32
    ensures CellShifted(h, MovedX(h, step, d), step, Sign(d), 0)
  {
    hide Fits, LatOf, LonOf, Pow2, Turned, MovedX;
    if Fits(h, step) { MoveXTurnsLongitude(h, step, d); }
  }

  lemma YShiftsCell(h: bv64, step: bv8, d: int)
    requires 1 <= step <= 32
    ensures CellShifted(h, MovedY(h, step, d), step, 0, Sign(d))
  {
    hide Fits, LatOf, LonOf, Pow2, Turned, MovedY;
    if Fits(h, step) { MoveYTurnsLatitude(h, step, d); }
  }

  // geohash_move_x
  method MoveX(hash: GeoHashBits, d: int)
    requires 1 <= hash.step <= 32
    modifies hash
    ensures hash.step == old(hash.step) && hash.bits == MovedX(old(hash.bits), hash.step, d)
    ensures CellShifted(old(hash.bits), hash.bits, hash.step, Sign(d), 0)
  {
    hide EvenDigits, OddDigits, Stepped, LonDigits, LatDigits, Merged, Masked, CellShifted;
    XShiftsCell(hash.bits, hash.step, d);
    if d == 0 { return; }
    var x := LonDigits(hash.bits);
    var y := LatDigits(hash.bits);
    var zz := EvenDigits(hash.step);
    x := Stepped(x, zz, d > 0);
    x := Masked(x, OddDigits(hash.step));
    hash.bits := Merged(x, y);
  }

  // geohash_move_y
  method MoveY(hash: GeoHashBits, d: int)
    requires 1 <= hash.step <= 32
    modifies hash
    ensures hash.step == old(hash.step) && hash.bits == MovedY(old(hash.bits), hash.step, d)
    ensures CellShifted(old(hash.bits), hash.bits, hash.step, 0, Sign(d))
  {
    hide EvenDigits, OddDigits, Stepped, LonDigits, LatDigits, Merged, Masked, CellShifted;
    YShiftsCell(hash.bits, hash.step, d);
    if d == 0 { return; }
    var x := LonDigits(hash.bits);
    var y := LatDigits(hash.bits);
    var zz := OddDigits(hash.step);
    y := Stepped(y, zz, d > 0);
    y := Masked(y, EvenDigits(hash.step));
    hash.bits := Merged(x, y);
  }

  // ---- what a move does to the digits: it stops at the first digit that does not carry ----

  lemma UpStops(h: bv64, step: bv8)
    requires 1 <= step <= 32 && Fits(h, step) && !LonBit(h)
    ensures var h' := NextX(h, step, true);
      Fits(h', step) && LonBit(h') && LatBit(h') == LatBit(h) && Rest(h') == Rest(h)
  {
  }

  lemma UpCarries(h: bv64, step: bv8)
    requires 1 <= step <= 32 && Fits(h, step) && LonBit(h)
    ensures var h' := NextX(h, step, true);
      !LonBit(h') && LatBit(h') == LatBit(h) && Rest(h') == if step == 1 then 0 else NextX(Rest(h), step - 1, true)
  {
  }

  lemma DownStops(h: bv64, step: bv8)
    requires 1 <= step <= 32 && Fits(h, step) && LonBit(h)
    ensures var h' := NextX(h, step, false);
      Fits(h', step) && !LonBit(h') && LatBit(h') == LatBit(h) && Rest(h') == Rest(h)
  {
  }

  lemma DownBorrows(h: bv64, step: bv8)
    requires 1 <= step <= 32 && Fits(h, step) && !LonBit(h)
    ensures var h' := NextX(h, step, false);
      LonBit(h') && LatBit(h') == LatBit(h) && Rest(h') == if step == 1 then 0 else NextX(Rest(h), step - 1, false)
  {
  }

  lemma UpStopsY(h: bv64, step: bv8)
    requires 1 <= step <= 32 && Fits(h, step) && !LatBit(h)
    ensures var h' := NextY(h, step, true);
      Fits(h', step) && LatBit(h') && LonBit(h') == LonBit(h) && Rest(h') == Rest(h)
  {
  }

  lemma UpCarriesY(h: bv64, step: bv8)
    requires 1 <= step <= 32 && Fits(h, step) && LatBit(h)
    ensures var h' := NextY(h, step, true);
      !LatBit(h') && LonBit(h') == LonBit(h) && Rest(h') == if step == 1 then 0 else NextY(Rest(h), step - 1, true)
  {
  }

  lemma DownStopsY(h: bv64, step: bv8)
    requires 1 <= step <= 32 && Fits(h, step) && LatBit(h)
    ensures var h' := NextY(h, step, false);
      Fits(h', step) && !LatBit(h') && LonBit(h') == LonBit(h) && Rest(h') == Rest(h)
  {
  }

  lemma DownBorrowsY(h: bv64, step: bv8)
    requires 1 <= step <= 32 && Fits(h, step) && !LatBit(h)
    ensures var h' := NextY(h, step, false);
      LatBit(h') && LonBit(h') == LonBit(h) && Rest(h') == if step == 1 then 0 else NextY(Rest(h), step - 1, false)
  {
  }

  lemma FitsWithRest(h: bv64, step: bv8)
    requires 1 <= step <= 32
    ensures Fits(h, step) <==> Fits(Rest(h), step - 1)
  {
    hide Fits, Rest;
    if Fits(h, step) { RestFits(h, step); }
    if Fits(Rest(h), step - 1) { ShiftedFits(h, step - 1); }
  }

  // ---- moves on cell numbers ----

  // The neighbouring number around a circle of m.
  function Turned(n: nat, d: int, m: nat): (r: nat)
    requires n < m
    ensures r < m
  {
    if d > 0 then if n + 1 == m then 0 else n + 1
    else if d < 0 then if n == 0 then m - 1 else n - 1
    else n
  }

  function Sign(d: int): int {
    if d > 0 then 1 else if d < 0 then -1 else 0
  }

  lemma TurnedIs(n: nat, d: int, m: nat)
    requires n < m
    ensures Turned(n, d, m) == (n + Sign(d)) % m
  {
    var k := n + Sign(d);
    if k == m {
      Remainder(k, 1, 0, m);
    } else if k < 0 {
      Remainder(k, -1, m - 1, m);
    } else {
      Remainder(k, 0, k, m);
    }
  }

  lemma Remainder(k: int, q: int, r: nat, m: nat)
    requires r < m && k == q * m + r && -1 <= q <= 1
    ensures k % m == r
  {
  }

  lemma {:induction false} UpX(h: bv64, step: bv8)
    requires 1 <= step <= 32 && Fits(h, step)
    ensures var h' := NextX(h, step, true);
      Fits(h', step) && LatOf(h', step) == LatOf(h, step) && LonOf(h', step) == Turned(LonOf(h, step), 1, Pow2(step))
    decreases step
  {
    hide Fits, NextX, LatOf, LonOf, LatBit, LonBit, Rest, Pow2;
    var h' := NextX(h, step, true);
    FitsWithRest(h, step);
    FitsWithRest(h', step);
    LastDigits(h, step);
    LastDigits(h', step);
    NextPower(step);
    if !LonBit(h) {
      UpStops(h, step);
    } else {
      UpCarries(h, step);
      if step == 1 { NothingBefore(); } else { UpX(Rest(h), step - 1); }
    }
  }

  lemma {:induction false} DownX(h: bv64, step: bv8)
    requires 1 <= step <= 32 && Fits(h, step)
    ensures var h' := NextX(h, step, false);
      Fits(h', step) && LatOf(h', step) == LatOf(h, step) && LonOf(h', step) == Turned(LonOf(h, step), -1, Pow2(step))
    decreases step
  {
    hide Fits, NextX, LatOf, LonOf, LatBit, LonBit, Rest, Pow2;
    var h' := NextX(h, step, false);
    FitsWithRest(h, step);
    FitsWithRest(h', step);
    LastDigits(h, step);
    LastDigits(h', step);
    NextPower(step);
    if LonBit(h) {
      DownStops(h, step);
    } else {
      DownBorrows(h, step);
      if step == 1 { NothingBefore(); } else { DownX(Rest(h), step - 1); }
    }
  }

  lemma {:induction false} UpY(h: bv64, step: bv8)
    requires 1 <= step <= 32 && Fits(h, step)
    ensures var h' := NextY(h, step, true);
      Fits(h', step) && LatOf(h', step) == Turned(LatOf(h, step), 1, Pow2(step)) && LonOf(h', step) == LonOf(h, step)
    decreases step
  {
    hide Fits, NextY, LatOf, LonOf, LatBit, LonBit, Rest, Pow2;
    var h' := NextY(h, step, true);
    FitsWithRest(h, step);
    FitsWithRest(h', step);
    LastDigits(h, step);
    LastDigits(h', step);
    NextPower(step);
    if !LatBit(h) {
      UpStopsY(h, step);
    } else {
      UpCarriesY(h, step);
      if step == 1 { NothingBefore(); } else { UpY(Rest(h), step - 1); }
    }
  }

  lemma {:induction false} DownY(h: bv64, step: bv8)
    requires 1 <= step <= 32 && Fits(h, step)
    ensures var h' := NextY(h, step, false);
      Fits(h', step) && LatOf(h', step) == Turned(LatOf(h, step), -1, Pow2(step)) && LonOf(h', step) == LonOf(h, step)
    decreases step
  {
    hide Fits, NextY, LatOf, LonOf, LatBit, LonBit, Rest, Pow2;
    var h' := NextY(h, step, false);
    FitsWithRest(h, step);
    FitsWithRest(h', step);
    LastDigits(h, step);
    LastDigits(h', step);
    NextPower(step);
    if LatBit(h) {
      DownStopsY(h, step);
    } else {
      DownBorrowsY(h, step);
      if step == 1 { NothingBefore(); } else { DownY(Rest(h), step - 1); }
    }
  }

  lemma NothingBefore()
    ensures Fits(0, 0) && Pow2(0) == 1
  {
  }

  // geohash_move_x adds or subtracts 1 modulo 2^step in the longitude and leaves the latitude alone.
  lemma MoveXTurnsLongitude(h: bv64, step: bv8, d: int)
    requires 1 <= step <= 32 && Fits(h, step)
    ensures var h' := MovedX(h, step, d);
      && Fits(h', step) && LatOf(h', step) == LatOf(h, step)
      && LonOf(h', step) == Turned(LonOf(h, step), d, Pow2(step)) == (LonOf(h, step) + Sign(d)) % Pow2(step)
  {
    hide Fits, NextX, NextY, LatOf, LonOf, Pow2;
    UpX(h, step);
    DownX(h, step);
    TurnedIs(LonOf(h, step), d, Pow2(step));
  }

  // geohash_move_y does the same to the latitude.
  lemma MoveYTurnsLatitude(h: bv64, step: bv8, d: int)
    requires 1 <= step <= 32 && Fits(h, step)
    ensures var h' := MovedY(h, step, d);
      && Fits(h', step) && LonOf(h', step) == LonOf(h, step)
      && LatOf(h', step) == Turned(LatOf(h, step), d, Pow2(step)) == (LatOf(h, step) + Sign(d)) % Pow2(step)
  {
    hide Fits, NextX, NextY, LatOf, LonOf, Pow2;
    UpY(h, step);
    DownY(h, step);
    TurnedIs(LatOf(h, step), d, Pow2(step));
  }

  // Opposite moves cancel.
  lemma MovesCancel(h: bv64, step: bv8, d: int)
    requires 1 <= step <= 32 && Fits(h, step)
    ensures MovedX(MovedX(h, step, d), step, -d) == h && MovedY(MovedY(h, step, d), step, -d) == h
  {
    hide *;
    MoveXTurnsLongitude(h, step, d);
    MoveYTurnsLatitude(h, step, d);
    var x, y := MovedX(h, step, d), MovedY(h, step, d);
    MoveXTurnsLongitude(x, step, -d);
    MoveYTurnsLatitude(y, step, -d);
    TurnedBack(LonOf(h, step), d, Pow2(step));
    TurnedBack(LatOf(h, step), d, Pow2(step));
    SameNumbersSameHash(MovedX(x, step, -d), h, step);
    SameNumbersSameHash(MovedY(y, step, -d), h, step);
  }

  lemma TurnedBack(n: nat, d: int, m: nat)
    requires n < m
    ensures Turned(Turned(n, d, m), -d, m) == n
  {
  }

  // Moves in the two coordinates commute.
  lemma MovesCommute(h: bv64, step: bv8, d: int, e: int)
    requires 1 <= step <= 32 && Fits(h, step)
    ensures MovedY(MovedX(h, step, d), step, e) == MovedX(MovedY(h, step, e), step, d)
  {
    hide *;
    MoveXTurnsLongitude(h, step, d);
    MoveYTurnsLatitude(h, step, e);
    var x, y := MovedX(h, step, d), MovedY(h, step, e);
    MoveYTurnsLatitude(x, step, e);
    MoveXTurnsLongitude(y, step, d);
    SameNumbersSameHash(MovedY(x, step, e), MovedX(y, step, d), step);
  }

  // ---- neighbours and the zone of 3 x 3 cells ----

  datatype GeoDirection = North | East | West | South | SouthWest | SouthEast | NorthWest | NorthEast

  // How far a direction goes to the east and to the north.
  function Eastward(direction: GeoDirection): int {
    match direction
    case East | SouthEast | NorthEast => 1
    case West | SouthWest | NorthWest => -1
    case North | South => 0
  }

  function Northward(direction: GeoDirection): int {
    match direction
    case North | NorthWest | NorthEast => 1
    case South | SouthWest | SouthEast => -1
    case East | West => 0
  }

  // The cell so many to the east and to the north, one at most.
  function Shifted(h: bv64, step: bv8, east: int, north: int): bv64
    requires 1 <= step <= 32
  {
    MovedY(MovedX(h, step, east), step, north)
  }

  lemma ShiftedNumbers(h: bv64, step: bv8, east: int, north: int)
    requires 1 <= step <= 32 && Fits(h, step) && -1 <= east <= 1 && -1 <= north <= 1
    ensures var h' := Shifted(h, step, east, north);
      && Fits(h', step)
      && LatOf(h', step) == (LatOf(h, step) + north) % Pow2(step)
      && LonOf(h', step) == (LonOf(h, step) + east) % Pow2(step)
  {
    hide Fits, MovedX, MovedY, LatOf, LonOf, Pow2, Turned;
    MoveXTurnsLongitude(h, step, east);
    MoveYTurnsLatitude(MovedX(h, step, east), step, north);
  }

  // geohash_get_neighbor
  method GetNeighbor(bits: bv64, step: bv8, direction: GeoDirection, neighbor: GeoHashBits?) returns (rc: int)
    requires 1 <= step <= 32
    modifies neighbor
    ensures rc == if neighbor == null then -1 else 0
    ensures neighbor != null ==> neighbor.step == step && neighbor.bits == Shifted(bits, step, Eastward(direction), Northward(direction))
  {
    if neighbor == null { return -1; }
    hide MovedX, MovedY;
    neighbor.bits := bits;
    neighbor.step := step;
    var dx, dy := Eastward(direction), Northward(direction);
    MoveX(neighbor, dx);
    MoveY(neighbor, dy);
    rc := 0;
  }

  class GeoHashSetCoordinate {
    const sx: int
    const sy: int
    const geohashset: array2<bv64>

    constructor (sx: nat, sy: nat)
      ensures this.sx == sx && this.sy == sy && fresh(geohashset)
      ensures geohashset.Length0 == sy && geohashset.Length1 == sx
    {
      this.sx, this.sy := sx, sy;
      this.geohashset := new bv64[sy, sx]((i, j) => 0);
    }
  }

  // The cell at row i, column j: north at the top, east at the right.
  function ZoneCell(center: bv64, i: nat, j: nat): bv64
    requires i < 3 && j < 3
  {
    Shifted(center, GEOHASH_STEP_BIT, j - 1, 1 - i)
  }

  ghost predicate IsZone(zone: array2<bv64>, center: bv64)
    reads zone
  {
    && zone.Length0 >= 3 && zone.Length1 >= 3
    && forall i, j :: 0 <= i < 3 && 0 <= j < 3 ==> zone[i, j] == ZoneCell(center, i, j)
  }

  datatype GeoHashNeighbors = GeoHashNeighbors(north: bv64, east: bv64, west: bv64, south: bv64,
                                               southWest: bv64, southEast: bv64, northWest: bv64, northEast: bv64)
  {
    ghost predicate Around(h: bv64, step: bv8)
      requires 1 <= step <= 32
    {
      && northWest == Shifted(h, step, -1, 1) && north == Shifted(h, step, 0, 1) && northEast == Shifted(h, step, 1, 1)
      && west == Shifted(h, step, -1, 0) && east == Shifted(h, step, 1, 0)
      && southWest == Shifted(h, step, -1, -1) && south == Shifted(h, step, 0, -1) && southEast == Shifted(h, step, 1, -1)
    }
  }

  // geohash_get_neighbors
  method GetNeighbors(bits: bv64, step: bv8) returns (neighbors: GeoHashNeighbors)
    requires 1 <= step <= 32
    ensures neighbors.Around(bits, step)
  {
    hide Shifted;
    var neighbor := new GeoHashBits(0, 0);
    var _ := GetNeighbor(bits, step, North, neighbor);
    var north := neighbor.bits;
    var _ := GetNeighbor(bits, step, East, neighbor);
    var east := neighbor.bits;
    var _ := GetNeighbor(bits, step, West, neighbor);
    var west := neighbor.bits;
    var _ := GetNeighbor(bits, step, South, neighbor);
    var south := neighbor.bits;
    var _ := GetNeighbor(bits, step, SouthWest, neighbor);
    var southWest := neighbor.bits;
    var _ := GetNeighbor(bits, step, SouthEast, neighbor);
    var southEast := neighbor.bits;
    var _ := GetNeighbor(bits, step, NorthWest, neighbor);
    var northWest := neighbor.bits;
    var _ := GetNeighbor(bits, step, NorthEast, neighbor);
    neighbors := GeoHashNeighbors(north, east, west, south, southWest, southEast, northWest, neighbor.bits);
  }

  // geohash_get_neighbors_in_set. A set that has three rows or three columns must have room for both.
  method GetNeighborsInSet(zone: GeoHashSetCoordinate, center: bv64) returns (rc: int)
    requires zone.geohashset.Length0 == zone.sy && zone.geohashset.Length1 == zone.sx
    requires (zone.sx != 3 && zone.sy != 3) || (zone.sx >= 3 && zone.sy >= 3)
    modifies zone.geohashset
    ensures rc == if zone.sx != 3 && zone.sy != 3 then -1 else 0
    ensures rc == 0 ==> IsZone(zone.geohashset, center)
  {
    hide Shifted, ZoneCell, GeoHashNeighbors.Around, IsZone;
    var neighbors := GetNeighbors(center, GEOHASH_STEP_BIT);
    if zone.sx != 3 && zone.sy != 3 { return -1; }
    Fill(zone.geohashset, neighbors, center);
    AroundIsZone(neighbors, center);
    InTheMiddle(center);
    NineCells(zone.geohashset, center);
    rc := 0;
  }

  // The assignments to the set.
  method Fill(zone: array2<bv64>, neighbors: GeoHashNeighbors, center: bv64)
    requires zone.Length0 >= 3 && zone.Length1 >= 3
    modifies zone
    ensures zone[0, 0] == neighbors.northWest && zone[0, 1] == neighbors.north && zone[0, 2] == neighbors.northEast
    ensures zone[1, 0] == neighbors.west && zone[1, 1] == center && zone[1, 2] == neighbors.east
    ensures zone[2, 0] == neighbors.southWest && zone[2, 1] == neighbors.south && zone[2, 2] == neighbors.southEast
  {
    FillRow(zone, 0, neighbors.northWest, neighbors.north, neighbors.northEast);
    FillRow(zone, 1, neighbors.west, center, neighbors.east);
    FillRow(zone, 2, neighbors.southWest, neighbors.south, neighbors.southEast);
  }

  method FillRow(zone: array2<bv64>, i: nat, west: bv64, middle: bv64, east: bv64)
    requires i < zone.Length0 && zone.Length1 >= 3
    modifies zone
    ensures zone[i, 0] == west && zone[i, 1] == middle && zone[i, 2] == east
    ensures forall k, j :: 0 <= k < zone.Length0 && 0 <= j < zone.Length1 && k != i ==> zone[k, j] == old(zone[k, j])
  {
    zone[i, 0] := west;
    zone[i, 1] := middle;
    zone[i, 2] := east;
  }

  lemma NineCells(zone: array2<bv64>, center: bv64)
    requires zone.Length0 >= 3 && zone.Length1 >= 3
    requires zone[0, 0] == ZoneCell(center, 0, 0) && zone[0, 1] == ZoneCell(center, 0, 1) && zone[0, 2] == ZoneCell(center, 0, 2)
    requires zone[1, 0] == ZoneCell(center, 1, 0) && zone[1, 1] == ZoneCell(center, 1, 1) && zone[1, 2] == ZoneCell(center, 1, 2)
    requires zone[2, 0] == ZoneCell(center, 2, 0) && zone[2, 1] == ZoneCell(center, 2, 1) && zone[2, 2] == ZoneCell(center, 2, 2)
    ensures IsZone(zone, center)
  {
    hide ZoneCell;
  }

  lemma AroundIsZone(neighbors: GeoHashNeighbors, center: bv64)
    requires neighbors.Around(center, GEOHASH_STEP_BIT)
    ensures neighbors.northWest == ZoneCell(center, 0, 0) && neighbors.north == ZoneCell(center, 0, 1)
    ensures neighbors.northEast == ZoneCell(center, 0, 2) && neighbors.west == ZoneCell(center, 1, 0)
    ensures neighbors.east == ZoneCell(center, 1, 2) && neighbors.southWest == ZoneCell(center, 2, 0)
    ensures neighbors.south == ZoneCell(center, 2, 1) && neighbors.southEast == ZoneCell(center, 2, 2)
  {
    hide Shifted;
  }

  lemma InTheMiddle(center: bv64)
    ensures ZoneCell(center, 1, 1) == center
  {
  }

  // geohash_is_geohash_in_set
  method IsGeohashInSet(geohash: bv64, zone: array2<bv64>, ghost center: bv64) returns (found: bool)
    requires IsZone(zone, center)
    ensures found <==> InZone(geohash, center)
  {
    hide ZoneCell;
    var i := 0;
    while i < 3
      invariant 0 <= i <= 3
      invariant forall k, j :: 0 <= k < i && 0 <= j < 3 ==> ZoneCell(center, k, j) != geohash
    {
      var j := 0;
      while j < 3
        invariant 0 <= j <= 3
        invariant forall l :: 0 <= l < j ==> ZoneCell(center, i, l) != geohash
      {
        if zone[i, j] == geohash { return true; }
        j := j + 1;
      }
      i := i + 1;
    }
    found := false;
  }

  ghost predicate InZone(h: bv64, center: bv64) {
    exists i, j :: 0 <= i < 3 && 0 <= j < 3 && ZoneCell(center, i, j) == h
  }

  // The zone has at row i, column j the cell (lat + 1 - i, lon + j - 1) modulo 2^12 ...
  lemma ZoneNumbers(center: bv64, i: nat, j: nat)
    requires Fits(center, GEOHASH_STEP_BIT) && i < 3 && j < 3
    ensures var h := ZoneCell(center, i, j); var s := GEOHASH_STEP_BIT;
      && Fits(h, s) && LatOf(h, s) == (LatOf(center, s) + (1 - i)) % 4096 && LonOf(h, s) == (LonOf(center, s) + (j - 1)) % 4096
  {
    hide Fits, LatOf, LonOf, Shifted, Pow2;
    PowerOf12();
    ShiftedNumbers(center, GEOHASH_STEP_BIT, j - 1, 1 - i);
  }

  lemma PowerOf12()
    ensures Pow2(GEOHASH_STEP_BIT) == 4096
  {
    PowersUpTo4();
    PowerOf(4, 4);
    PowerOf(4, 8);
  }

  // ... and the nine cells are distinct.
  lemma ZoneCellsDistinct(center: bv64, i: nat, j: nat, k: nat, l: nat)
    requires Fits(center, GEOHASH_STEP_BIT) && i < 3 && j < 3 && k < 3 && l < 3
    requires ZoneCell(center, i, j) == ZoneCell(center, k, l)
    ensures i == k && j == l
  {
    hide Fits, LatOf, LonOf, ZoneCell;
    ZoneNumbers(center, i, j);
    ZoneNumbers(center, k, l);
    CloseBy(LatOf(center, GEOHASH_STEP_BIT), 1 - i, 1 - k);
    CloseBy(LonOf(center, GEOHASH_STEP_BIT), j - 1, l - 1);
  }

  lemma CloseBy(n: int, a: int, b: int)
    requires -3 <= a - b <= 3 && (n + a) % 4096 == (n + b) % 4096
    ensures a == b
  {
    var q, r := (n + a) / 4096, (n + b) / 4096;
    assert n + a == 4096 * q + (n + a) % 4096 && n + b == 4096 * r + (n + b) % 4096;
    assert a - b == 4096 * (q - r);
  }
}
