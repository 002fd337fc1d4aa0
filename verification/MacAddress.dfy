/** Mac48Address: six bytes. */
module MacAddress {
  type Bytes = seq<bv8>

  type Mac = m: Bytes | |m| == 6 witness [0, 0, 0, 0, 0, 0]

  // What the constructor without arguments makes, and GetBroadcast.
  const NO_MAC: Mac := [0, 0, 0, 0, 0, 0]
  const BROADCAST: Mac := [0xff, 0xff, 0xff, 0xff, 0xff, 0xff]

  // IsGroup
  predicate IsGroup(m: Mac) { m[0] & 1 == 1 }

  lemma GroupIs(m: Mac)
    ensures IsGroup(m) <==> m[0] % 2 == 1
    ensures IsGroup(BROADCAST) && !IsGroup(NO_MAC)
  {
  }
}
