/** interleave64 and deinterleave64 of geohash.c, and what the bits of a geohash stand for: bit 2i
    is bit i of the latitude's cell number, bit 2i + 1 bit i of the longitude's. */
module Morton {
  import opened Powers

  function Interleave64(xlo: bv32, ylo: bv32): (r: bv64)
    ensures Deinterleave64(r) == (xlo as bv64) | ((ylo as bv64) << 32)
  {
    var x := xlo as bv64;
    var y := ylo as bv64;
    var x := (x | (x << 16)) & 0x0000FFFF0000FFFF;
    var y := (y | (y << 16)) & 0x0000FFFF0000FFFF;
    var x := (x | (x << 8)) & 0x00FF00FF00FF00FF;
    var y := (y | (y << 8)) & 0x00FF00FF00FF00FF;
    var x := (x | (x << 4)) & 0x0F0F0F0F0F0F0F0F;
    var y := (y | (y << 4)) & 0x0F0F0F0F0F0F0F0F;
    var x := (x | (x << 2)) & 0x3333333333333333;
    var y := (y | (y << 2)) & 0x3333333333333333;
    var x := (x | (x << 1)) & 0x5555555555555555;
    var y := (y | (y << 1)) & 0x5555555555555555;
    x | (y << 1)
  }

  function Deinterleave64(interleaved: bv64): bv64 {
    var x := interleaved;
    var y := interleaved >> 1;
    var x := (x | (x >> 0)) & 0x5555555555555555;
    var y := (y | (y >> 0)) & 0x5555555555555555;
    var x := (x | (x >> 1)) & 0x3333333333333333;
    var y := (y | (y >> 1)) & 0x3333333333333333;
    var x := (x | (x >> 2)) & 0x0F0F0F0F0F0F0F0F;
    var y := (y | (y >> 2)) & 0x0F0F0F0F0F0F0F0F;
    var x := (x | (x >> 4)) & 0x00FF00FF00FF00FF;
    var y := (y | (y >> 4)) & 0x00FF00FF00FF00FF;
    var x := (x | (x >> 8)) & 0x0000FFFF0000FFFF;
    var y := (y | (y >> 8)) & 0x0000FFFF0000FFFF;
    var x := (x | (x >> 16)) & 0x00000000FFFFFFFF;
    var y := (y | (y >> 16)) & 0x00000000FFFFFFFF;
    x | (y << 32)
  }

  // The conversions of a 64-bit word to uint32_t and of its upper half.
  function Low(w: bv64): bv32 { (w & 0xFFFFFFFF) as bv32 }

  function High(w: bv64): bv32 { (w >> 32) as bv32 }

  lemma InterleaveInvertsDeinterleave(z: bv64)
    ensures Interleave64(Low(Deinterleave64(z)), High(Deinterleave64(z))) == z
  {
  }

  // Bit i of a word is set.
  predicate Set32(w: bv32, i: bv8)
    requires i < 32
  {
    w & (1 << i) != 0
  }

  predicate Set64(w: bv64, i: bv8)
    requires i < 64
  {
    w & (1 << i) != 0
  }

  // Bit 2i of the code is bit i of x, bit 2i + 1 is bit i of y.
  lemma InterleavedBits(x: bv32, y: bv32, i: bv8)
    requires i < 32
    ensures Set64(Interleave64(x, y), 2 * i) == Set32(x, i)
    ensures Set64(Interleave64(x, y), 2 * i + 1) == Set32(y, i)
  {
    hide Interleave64, Set32, Set64;
    EvenBit(x, y, i);
    OddBit(x, y, i);
  }

  lemma EvenBit(x: bv32, y: bv32, i: bv8)
    requires i < 32
    ensures Set64(Interleave64(x, y), 2 * i) <==> Set32(x, i)
  {
  }

  lemma OddBit(x: bv32, y: bv32, i: bv8)
    requires i < 32
    ensures Set64(Interleave64(x, y), 2 * i + 1) <==> Set32(y, i)
  {
  }

  // ---- numbers ----

  function Pow2(s: bv8): (r: nat)
    ensures r > 0
  {
    Power(2, s as nat)
  }

  function Bit(b: bool): nat { if b then 1 else 0 }

  // The number in the lower s bits of x.
  function Value(x: bv32, s: bv8): (r: nat)
    ensures r < Pow2(s)
    decreases s
  {
    hide Pow2;
    NextPower(s);
    if s == 0 then 0 else Bit(x & 1 == 1) + 2 * Value(x >> 1, s - 1)
  }

  // The last digits of the two numbers in a geohash, and the digits before.
  predicate LatBit(h: bv64) { h & 1 == 1 }

  predicate LonBit(h: bv64) { h & 2 == 2 }

  function Rest(h: bv64): bv64 { h >> 2 }

  // The cell numbers in the lower 2s bits of a geohash.
  function LatOf(h: bv64, s: bv8): (r: nat)
    ensures r < Pow2(s)
    decreases s
  {
    hide Pow2;
    NextPower(s);
    if s == 0 then 0 else Bit(LatBit(h)) + 2 * LatOf(Rest(h), s - 1)
  }

  function LonOf(h: bv64, s: bv8): (r: nat)
    ensures r < Pow2(s)
    decreases s
  {
    hide Pow2;
    NextPower(s);
    if s == 0 then 0 else Bit(LonBit(h)) + 2 * LonOf(Rest(h), s - 1)
  }

  // The hash is below 4^s.
  predicate Fits(h: bv64, s: bv8)
    requires s <= 32
  {
    h >> (2 * s) == 0
  }

  lemma LowBits(x: bv32, y: bv32)
    ensures LatBit(Interleave64(x, y)) == (x & 1 == 1)
    ensures LonBit(Interleave64(x, y)) == (y & 1 == 1)
    ensures Rest(Interleave64(x, y)) == Interleave64(x >> 1, y >> 1)
  {
  }

  // Interleaving keeps both numbers.
  lemma {:induction false} InterleaveKeeps(x: bv32, y: bv32, s: bv8)
    ensures LatOf(Interleave64(x, y), s) == Value(x, s) && LonOf(Interleave64(x, y), s) == Value(y, s)
    decreases s
  {
    hide Interleave64, Deinterleave64, LatBit, LonBit, Rest;
    if s > 0 {
      LowBits(x, y);
      InterleaveKeeps(x >> 1, y >> 1, s - 1);
    }
  }

  // deinterleave64 reads both numbers off.
  lemma DeinterleaveReads(z: bv64, s: bv8)
    ensures Value(Low(Deinterleave64(z)), s) == LatOf(z, s) && Value(High(Deinterleave64(z)), s) == LonOf(z, s)
  {
    hide *;
    InterleaveInvertsDeinterleave(z);
    InterleaveKeeps(Low(Deinterleave64(z)), High(Deinterleave64(z)), s);
  }

  // A geohash is determined by its two numbers.
  lemma {:induction false} SameNumbersSameHash(h: bv64, g: bv64, s: bv8)
    requires s <= 32 && Fits(h, s) && Fits(g, s)
    requires LatOf(h, s) == LatOf(g, s) && LonOf(h, s) == LonOf(g, s)
    ensures h == g
    decreases s
  {
    if s > 0 {
      SameNumbersSameHash(Rest(h), Rest(g), s - 1);
    }
  }

  // More digits do not change the numbers of a hash that fits.
  lemma {:induction false} Widen(h: bv64, s: bv8, t: bv8)
    requires s <= t <= 32 && Fits(h, s)
    ensures LatOf(h, t) == LatOf(h, s) && LonOf(h, t) == LonOf(h, s) && Fits(h, t)
    decreases t
  {
    hide Fits, LatOf, LonOf, Rest, LatBit, LonBit, Bit;
    FitsMore(h, s, t);
    if s > 0 {
      RestFits(h, s);
      Widen(Rest(h), s - 1, t - 1);
      LastDigits(h, s);
      LastDigits(h, t);
    } else if t > 0 {
      NoDigitsLeft(h);
      Widen(h, 0, t - 1);
      LastDigits(h, t);
    }
  }

  lemma FitsMore(h: bv64, s: bv8, t: bv8)
    requires s <= t <= 32 && Fits(h, s)
    ensures Fits(h, t)
  {
  }

  lemma NoDigitsLeft(h: bv64)
    requires Fits(h, 0)
    ensures Rest(h) == h && Bit(LatBit(h)) == Bit(LonBit(h)) == 0 && LatOf(h, 0) == LonOf(h, 0) == 0
  {
  }

  lemma RestFits(h: bv64, s: bv8)
    requires 1 <= s <= 32 && Fits(h, s)
    ensures Fits(Rest(h), s - 1)
  {
  }

  // Two more bits at the right end.
  function Push(h: bv64, lonBit: bv64, latBit: bv64): bv64 {
    (((h << 1) + lonBit) << 1) + latBit
  }

  lemma PushBits(h: bv64, s: bv8, lonBit: bv64, latBit: bv64)
    requires s < 32 && Fits(h, s) && lonBit <= 1 && latBit <= 1
    ensures var h' := Push(h, lonBit, latBit);
      Fits(h', s + 1) && Rest(h') == h && LatBit(h') == (latBit == 1) && LonBit(h') == (lonBit == 1)
    ensures s + 1 != 0 && s + 1 - 1 == s
  {
    hide Push, Rest, LatBit, LonBit;
    RoomForTwo(h, s);
    PushInto(h, lonBit, latBit);
    ShiftedFits(Push(h, lonBit, latBit), s);
  }

  lemma RoomForTwo(h: bv64, s: bv8)
    requires s < 32 && Fits(h, s)
    ensures h >> 62 == 0
  {
  }

  lemma PushInto(h: bv64, lonBit: bv64, latBit: bv64)
    requires h >> 62 == 0 && lonBit <= 1 && latBit <= 1
    ensures var h' := Push(h, lonBit, latBit);
      Rest(h') == h && LatBit(h') == (latBit == 1) && LonBit(h') == (lonBit == 1)
  {
  }

  lemma ShiftedFits(h: bv64, s: bv8)
    requires s < 32 && Fits(Rest(h), s)
    ensures Fits(h, s + 1)
  {
  }

  lemma Pushed(h: bv64, s: bv8, lonBit: bv64, latBit: bv64)
    requires s < 32 && Fits(h, s) && lonBit <= 1 && latBit <= 1
    ensures var h' := Push(h, lonBit, latBit);
      && Fits(h', s + 1)
      && LatOf(h', s + 1) == 2 * LatOf(h, s) + Bit(latBit == 1)
      && LonOf(h', s + 1) == 2 * LonOf(h, s) + Bit(lonBit == 1)
  {
    hide *;
    PushBits(h, s, lonBit, latBit);
    LastDigits(Push(h, lonBit, latBit), s + 1);
  }

  lemma LastDigits(h: bv64, s: bv8)
    requires s > 0
    ensures LatOf(h, s) == Bit(LatBit(h)) + 2 * LatOf(Rest(h), s - 1)
    ensures LonOf(h, s) == Bit(LonBit(h)) + 2 * LonOf(Rest(h), s - 1)
  {
  }

  // (uint32_t) of a number: its digits below 2^32.
  function ToUint32(k: nat): bv32
    decreases k
  {
    if k == 0 then 0 else (ToUint32(k / 2) << 1) | (if k % 2 == 1 then 1 else 0)
  }

  // No digits from s on.
  predicate Small(x: bv32, s: bv8)
    requires s <= 32
  {
    s < 32 ==> x >> s == 0
  }

  lemma {:induction false} Uint32Value(k: nat, s: bv8)
    requires s <= 32 && k < Pow2(s)
    ensures Value(ToUint32(k), s) == k && Small(ToUint32(k), s)
    decreases s
  {
    if s == 0 {
      assert k == 0 && ToUint32(0) == 0;
    } else {
      hide Value, ToUint32, Small;
      Uint32Value(k / 2, s - 1);
      OneMoreDigit(k, k / 2, if k % 2 == 1 then 1 else 0, s);
    }
  }

  lemma OneMoreDigit(k: nat, q: nat, low: bv32, s: bv8)
    requires 0 < s <= 32 && Small(ToUint32(q), s - 1) && low <= 1 && k == 2 * q + Bit(low == 1)
    ensures Small(ToUint32(k), s) && Value(ToUint32(k), s) == Bit(low == 1) + 2 * Value(ToUint32(q), s - 1)
  {
    hide Value, Small, ToUint32, Pow2, Bit;
    LastBit(k, q, low);
    DigitIn(ToUint32(q), low, ToUint32(k), s);
  }

  lemma DigitIn(x: bv32, low: bv32, y: bv32, s: bv8)
    requires 0 < s <= 32 && Small(x, s - 1) && low <= 1 && y == (x << 1) | low
    ensures Small(y, s) && Value(y, s) == Bit(low == 1) + 2 * Value(x, s - 1)
  {
    hide Value;
    ShiftIn(x, low, s);
    LastDigit(y, s);
  }

  lemma LastBit(k: nat, q: nat, low: bv32)
    requires low <= 1 && k == 2 * q + Bit(low == 1)
    ensures ToUint32(k) == (ToUint32(q) << 1) | low
  {
    assert k / 2 == q && k % 2 == Bit(low == 1);
  }

  lemma LastDigit(x: bv32, s: bv8)
    requires s > 0
    ensures Value(x, s) == Bit(x & 1 == 1) + 2 * Value(x >> 1, s - 1)
  {
  }

  lemma ShiftIn(x: bv32, low: bv32, s: bv8)
    requires 0 < s <= 32 && Small(x, s - 1) && low <= 1
    ensures var y := (x << 1) | low; y >> 1 == x && y & 1 == low && Small(y, s)
  {
  }

  // The lower s bits are all set.
  predicate AllOnes(x: bv32, s: bv8)
    requires s <= 32
  {
    x | ((0xFFFFFFFF as bv64 << s) & 0xFFFFFFFF) as bv32 == 0xFFFFFFFF
  }

  // Adding 1 to a uint32_t: one more, unless it wraps around.
  lemma {:induction false} Increment(x: bv32, s: bv8)
    requires s <= 32 && !AllOnes(x, s)
    ensures Value(x + 1, s) == Value(x, s) + 1
    decreases s
  {
    hide AllOnes, Value;
    IncrementBits(x, s);
    LastDigit(x, s);
    LastDigit(x + 1, s);
    if x & 1 == 1 { Increment(x >> 1, s - 1); }
  }

  lemma IncrementBits(x: bv32, s: bv8)
    requires s <= 32 && !AllOnes(x, s)
    ensures s > 0
    ensures x & 1 == 0 ==> (x + 1) & 1 == 1 && (x + 1) >> 1 == x >> 1
    ensures x & 1 == 1 ==> !AllOnes(x >> 1, s - 1) && (x + 1) & 1 == 0 && (x + 1) >> 1 == (x >> 1) + 1
    ensures x & 1 == 0 || x & 1 == 1
  {
  }

  lemma {:induction false} ZeroValue(s: bv8)
    ensures Value(0, s) == 0
    decreases s
  {
    if s > 0 {
      ZeroValue(s - 1);
      LastDigit(0, s);
      assert 0 as bv32 >> 1 == 0;
    }
  }

  lemma AllOnesIs(x: bv32)
    ensures AllOnes(x, 32) <==> x == 0xFFFFFFFF
  {
  }

  lemma {:induction false} PowerOf(s: bv8, t: bv8)
    requires t <= 100 && s <= 100
    ensures Pow2(s + t) == Pow2(s) * Pow2(t)
    decreases t
  {
    if t > 0 {
      PowerOf(s, t - 1);
      hide Pow2;
      NextPower(s + t);
      NextPower(t);
      assert s + t - 1 == s + (t - 1);
      Regroup(Pow2(s), Pow2(t - 1));
    }
  }

  lemma Regroup(a: nat, b: nat)
    ensures 2 * (a * b) == a * (2 * b)
  {
  }

  lemma PowersUpTo4()
    ensures Pow2(1) == 2 && Pow2(4) == 16
  {
    hide Pow2;
    assert Pow2(0) == 1 by { NoDigits(0); }
    NextPower(1);
    NextPower(2);
    NextPower(3);
    NextPower(4);
  }

  lemma PowerOf32()
    ensures Pow2(32) == 0x1_0000_0000
  {
    PowersUpTo4();
    PowerOf(4, 4);
    PowerOf(8, 8);
    PowerOf(16, 16);
  }

  // A number whose digits below s are all set, and only then, is the largest of s digits.
  lemma {:induction false} LargestValue(x: bv32, s: bv8)
    requires s <= 32
    ensures Value(x, s) == Pow2(s) - 1 <==> AllOnes(x, s)
    decreases s
  {
    hide AllOnes, Value, Pow2;
    AllOnesBits(x, s);
    if s == 0 {
      NoDigits(x);
    } else {
      LastDigit(x, s);
      LargestValue(x >> 1, s - 1);
      NextPower(s);
    }
  }

  lemma NoDigits(x: bv32)
    ensures Value(x, 0) == 0 && Pow2(0) == 1
  {
  }

  lemma NextPower(s: bv8)
    ensures Pow2(s) == if s == 0 then 1 else 2 * Pow2(s - 1)
  {
  }

  lemma AllOnesBits(x: bv32, s: bv8)
    requires s <= 32
    ensures s == 0 ==> AllOnes(x, s)
    ensures s > 0 ==> (AllOnes(x, s) <==> x & 1 == 1 && AllOnes(x >> 1, s - 1))
  {
  }
}
