/** onoff-application.cc: a source that sends at a constant rate while it is on, and what becomes of
    the bits it has generated when it stops in the middle of a packet. Time is exact. */
module OnOff {
  import opened Options

  const UINT32 := 0x1_0000_0000

  // m_pktSize * 8, in a uint32_t
  function PacketBits(pktSize: nat): nat { pktSize * 8 % UINT32 }

  // The bits generated in a time.
  function Bits(rate: nat, t: real): real { rate as real * t }

  lemma BitsAdd(rate: nat, a: real, b: real)
    ensures Bits(rate, a + b) == Bits(rate, a) + Bits(rate, b)
  {
  }

  lemma BitsGrow(rate: nat, a: real, b: real)
    requires a <= b
    ensures Bits(rate, a) <= Bits(rate, b) && Bits(rate, 0.0) == 0.0
  {
    BitsAdd(rate, a, b - a);
    assert rate as real * (b - a) >= 0.0;
  }

  // The time it takes to generate so many bits.
  function TimeFor(rate: nat, bits: nat): real
    requires rate > 0
  {
    bits as real / rate as real
  }

  lemma TimeForBits(rate: nat, bits: nat)
    requires rate > 0
    ensures Bits(rate, TimeFor(rate, bits)) == bits as real && TimeFor(rate, bits) >= 0.0
  {
  }

  // What has to hold between two events: state is what the source has, the rest is only observed.
  datatype Source = Source(
    rate: nat, packetBits: nat,
    residual: nat,        // m_residualBits
    lastStart: real,      // m_lastStartTime
    sendAt: Option<real>, // m_sendEvent
    sent: nat,            // packets sent
    now: real,            // the time of the last event
    onTime: real,         // how long the source has been on so far
    stops: nat)           // how often it has been stopped while sending
  {
    // The bits of the interval that has not been closed by a packet or a stop.
    ghost function Unfinished(): real {
      if sendAt.Some? then Bits(rate, now - lastStart) else 0.0
    }

    // The bits generated and not accounted for.
    ghost function Lost(): real {
      Bits(rate, onTime) - ((packetBits * sent + residual) as real + Unfinished())
    }

    ghost predicate Sound() {
      && rate > 0 && residual <= packetBits
      && (sendAt.Some? ==>
            && lastStart <= now <= sendAt.value
            && Bits(rate, sendAt.value - lastStart) == (packetBits - residual) as real)
      && 0.0 <= Lost() <= stops as real
    }

    // Time passes until the next event.
    ghost function At(t: real): Source {
      this.(now := t, onTime := onTime + if sendAt.Some? then t - now else 0.0)
    }

    // ScheduleNextTx, when packets are left to send
    ghost function Scheduled(): Source
      requires rate > 0 && residual <= packetBits
    {
      this.(sendAt := Some(now + TimeFor(rate, packetBits - residual)))
    }

    ghost function Started(): Source
      requires rate > 0 && residual <= packetBits
    {
      this.(lastStart := now).Scheduled()
    }

    // SendPacket before the next packet is scheduled
    ghost function PacketSent(): Source {
      this.(sent := sent + 1, lastStart := now, residual := 0, sendAt := None)
    }

    // CancelEvents
    ghost function Cancelled(): Source {
      if sendAt.None? then this
      else
        var bits := Bits(rate, now - lastStart).Floor;
        this.(residual := if bits >= 0 then residual + bits else residual, sendAt := None, stops := stops + 1)
    }
  }

  // Waiting changes nothing but the time, up to the moment the packet is due.
  lemma WaitingKeeps(s: Source, t: real)
    requires s.Sound() && s.now <= t && (s.sendAt.Some? ==> t <= s.sendAt.value)
    ensures s.At(t).Sound() && s.At(t).Lost() == s.Lost()
  {
    hide Bits;
    if s.sendAt.Some? {
      BitsAdd(s.rate, s.onTime, t - s.now);
      BitsAdd(s.rate, s.now - s.lastStart, t - s.now);
      assert s.now - s.lastStart + (t - s.now) == t - s.lastStart;
    }
  }

  lemma SchedulingKeeps(s: Source)
    requires s.Sound() && s.sendAt.None?
    ensures s.Started().Sound() && s.Started().Lost() == s.Lost()
  {
    hide Bits, TimeFor;
    var left := TimeFor(s.rate, s.packetBits - s.residual);
    TimeForBits(s.rate, s.packetBits - s.residual);
    assert s.now + left - s.now == left;
    BitsGrow(s.rate, 0.0, 0.0);
  }

  // A packet takes exactly the bits of the interval and the residual ones: nothing is lost.
  lemma SendingKeeps(s: Source)
    requires s.Sound() && s.sendAt == Some(s.now)
    ensures s.PacketSent().Sound() && s.PacketSent().Lost() == s.Lost()
  {
    hide Bits;
    assert s.packetBits * (s.sent + 1) == s.packetBits * s.sent + s.packetBits;
  }

  // A stop keeps the whole bits of the interval, at most what the packet lacks, and loses less than one.
  lemma CancellingKeeps(s: Source)
    requires s.Sound()
    ensures s.Cancelled().Sound() && s.Cancelled().residual <= s.packetBits
    ensures s.sendAt.Some? ==> s.Lost() <= s.Cancelled().Lost() < s.Lost() + 1.0
    ensures s.sendAt.Some? ==> s.Cancelled().residual == s.residual + Bits(s.rate, s.now - s.lastStart).Floor
  {
    hide Bits;
    if s.sendAt.Some? {
      BitsGrow(s.rate, s.now - s.lastStart, s.sendAt.value - s.lastStart);
      BitsGrow(s.rate, 0.0, s.now - s.lastStart);
      var b := Bits(s.rate, s.now - s.lastStart);
      assert b.Floor as real <= b < b.Floor as real + 1.0;
    }
  }

  class OnOffApplication {
    const rate: nat
    const pktSize: nat
    const maxBytes: nat
    var cbrRateFailSafe: nat
    var residualBits: nat
    var lastStartTime: real
    var totBytes: nat
    var sendEvent: Option<real>
    var startStopEvent: Option<real>
    ghost var s: Source

    ghost predicate Valid()
      reads this
    {
      && s.Sound() && s.rate == rate && s.packetBits == PacketBits(pktSize)
      && s.residual == residualBits && s.sendAt == sendEvent && s.lastStart == lastStartTime
      && totBytes == pktSize * s.sent
      && (sendEvent.Some? || startStopEvent.Some? ==> cbrRateFailSafe == rate)
    }

    constructor (rate: nat, pktSize: nat, maxBytes: nat)
      requires rate > 0
      ensures Valid() && this.rate == rate && this.pktSize == pktSize && this.maxBytes == maxBytes
      ensures residualBits == 0 && totBytes == 0 && sendEvent == None && startStopEvent == None
      ensures s == Source(rate, PacketBits(pktSize), 0, 0.0, None, 0, 0.0, 0.0, 0)
    {
      this.rate, this.pktSize, this.maxBytes := rate, pktSize, maxBytes;
      cbrRateFailSafe, residualBits, lastStartTime, totBytes, sendEvent, startStopEvent := 0, 0, 0.0, 0, None, None;
      s := Source(rate, PacketBits(pktSize), 0, 0.0, None, 0, 0.0, 0.0, 0);
    }

    // Events come in the order of their times.
    ghost predicate Due(now: real)
      reads this
    {
      s.now <= now && (sendEvent.Some? ==> now <= sendEvent.value)
    }

    // CancelEvents
    method CancelEvents(now: real)
      requires Valid() && Due(now)
      modifies this
      ensures Valid() && s == old(s).At(now).Cancelled() && sendEvent == None && startStopEvent == None
      ensures totBytes == old(totBytes) && cbrRateFailSafe == rate
    {
      hide Bits, PacketBits;
      WaitingKeeps(s, now);
      CancellingKeeps(s.At(now));
      s := s.At(now).Cancelled();
      if sendEvent.Some? && cbrRateFailSafe == rate {
        var delta := now - lastStartTime;
        var bits := Bits(rate, delta).Floor;
        BelowUint32(pktSize);
        residualBits := (residualBits + bits) % UINT32;
      }
      cbrRateFailSafe := rate;
      sendEvent := None;
      startStopEvent := None;
    }

    // ScheduleNextTx
    method ScheduleNextTx(now: real)
      requires Valid() && s.now == now && sendEvent == None && lastStartTime == now && cbrRateFailSafe == rate
      modifies this
      ensures Valid() && totBytes == old(totBytes) && residualBits == old(residualBits) && cbrRateFailSafe == rate
      ensures if maxBytes == 0 || totBytes < maxBytes
        then s == old(s).Started() && startStopEvent == old(startStopEvent)
        else s == old(s) && sendEvent == None && startStopEvent == None
    {
      hide Bits, PacketBits, TimeFor;
      if maxBytes == 0 || totBytes < maxBytes {
        BelowUint32(pktSize);
        var bits := (PacketBits(pktSize) - residualBits) % UINT32;
        SchedulingKeeps(s);
        s := s.Started();
        sendEvent := Some(now + TimeFor(rate, bits));
      } else {
        StopApplication(now);
      }
    }

    // StopApplication
    method StopApplication(now: real)
      requires Valid() && Due(now)
      modifies this
      ensures Valid() && s == old(s).At(now).Cancelled() && sendEvent == None && startStopEvent == None
      ensures totBytes == old(totBytes) && cbrRateFailSafe == rate
    {
      hide Bits, PacketBits;
      CancelEvents(now);
    }

    // StartApplication, with the length of the first off time
    method StartApplication(now: real, offTime: real)
      requires Valid() && Due(now) && offTime >= 0.0
      modifies this
      ensures Valid() && s == old(s).At(now).Cancelled() && sendEvent == None && startStopEvent == Some(now + offTime)
      ensures totBytes == old(totBytes)
    {
      hide Bits, PacketBits;
      cbrRateFailSafe := rate;
      CancelEvents(now);
      startStopEvent := Some(now + offTime);
    }

    // StartSending, with the length of the on time
    method StartSending(now: real, onTime: real)
      requires Valid() && Due(now) && sendEvent == None && startStopEvent == Some(now) && onTime >= 0.0
      modifies this
      ensures Valid() && totBytes == old(totBytes) && residualBits == old(residualBits) && startStopEvent == Some(now + onTime)
      ensures s == if maxBytes == 0 || totBytes < maxBytes then old(s).At(now).Started() else old(s).At(now).(lastStart := now)
    {
      hide Bits, PacketBits, TimeFor;
      WaitingKeeps(s, now);
      lastStartTime := now;
      s := s.At(now).(lastStart := now);
      ScheduleNextTx(now);
      startStopEvent := Some(now + onTime);
    }

    // StopSending, with the length of the off time
    method StopSending(now: real, offTime: real)
      requires Valid() && Due(now) && startStopEvent == Some(now) && offTime >= 0.0
      modifies this
      ensures Valid() && s == old(s).At(now).Cancelled() && sendEvent == None && startStopEvent == Some(now + offTime)
      ensures totBytes == old(totBytes)
    {
      hide Bits, PacketBits;
      CancelEvents(now);
      startStopEvent := Some(now + offTime);
    }

    // SendPacket
    method SendPacket(now: real)
      requires Valid() && Due(now) && sendEvent == Some(now)
      modifies this
      ensures Valid() && totBytes == old(totBytes) + pktSize && residualBits == 0
      ensures if maxBytes == 0 || totBytes < maxBytes
        then s == old(s).At(now).PacketSent().Started() && startStopEvent == old(startStopEvent)
        else s == old(s).At(now).PacketSent() && startStopEvent == None
    {
      hide Bits, PacketBits, TimeFor;
      WaitingKeeps(s, now);
      SendingKeeps(s.At(now));
      OneMorePacket(pktSize, s.sent);
      s := s.At(now).PacketSent();
      sendEvent := None;
      totBytes := totBytes + pktSize;
      lastStartTime := now;
      residualBits := 0;
      ScheduleNextTx(now);
    }
  }

  lemma OneMorePacket(pktSize: nat, n: nat)
    ensures pktSize * (n + 1) == pktSize * n + pktSize
  {
  }

  lemma BelowUint32(pktSize: nat)
    ensures PacketBits(pktSize) < UINT32
  {
  }

  // Of the bits generated in the on times all but less than one for each stop are in a packet,
  // residual, or in the interval under way.
  ghost predicate Accounted(s: Source, totBytes: nat) {
    0.0 <= Bits(s.rate, s.onTime) - ((8 * totBytes + s.residual) as real + s.Unfinished()) <= s.stops as real
  }

  // At every event the residual bits fit into a packet, so that the unsigned subtraction never
  // wraps, and the accounts hold as long as eight times the size of a packet fits into a uint32_t.
  lemma EveryBitAccountedFor(app: OnOffApplication)
    requires app.Valid()
    ensures app.residualBits <= PacketBits(app.pktSize)
    ensures app.pktSize < 0x2000_0000 ==> Accounted(app.s, app.totBytes)
    ensures PacketBits(app.pktSize) == 8 * app.pktSize <==> app.pktSize < 0x2000_0000
  {
    hide Bits;
    if app.pktSize < 0x2000_0000 {
      assert PacketBits(app.pktSize) == 8 * app.pktSize;
      EightTimes(app.pktSize, app.s.sent);
    }
  }

  lemma EightTimes(a: nat, n: nat)
    ensures 8 * a * n == 8 * (a * n)
  {
  }

  // The bits of a packet that the uint32_t does not count.
  function Uncounted(pktSize: nat): nat { 8 * pktSize - PacketBits(pktSize) }

  // They hold exactly as long as the bits uncounted in the packets sent are no more than those lost
  // at stops: so for large packets, while there are fewer than 2^32 stops, only before the first one.
  lemma AccountedIff(app: OnOffApplication)
    requires app.Valid()
    ensures Accounted(app.s, app.totBytes) <==> (Uncounted(app.pktSize) * app.s.sent) as real <= app.s.Lost()
    ensures app.s.stops < UINT32 ==> (Accounted(app.s, app.totBytes) <==> app.pktSize < 0x2000_0000 || app.s.sent == 0)
  {
    EveryBitAccountedFor(app);
    CountedParts(app.pktSize, app.s.sent, app.totBytes);
    hide Bits, PacketBits;
    if app.pktSize >= 0x2000_0000 {
      WrappedBits(app.pktSize);
      if app.s.sent > 0 { Overcounted(Uncounted(app.pktSize), app.s.sent); }
    }
  }

  lemma CountedParts(pktSize: nat, n: nat, totBytes: nat)
    requires totBytes == pktSize * n
    ensures 8 * totBytes == PacketBits(pktSize) * n + Uncounted(pktSize) * n
    ensures n == 0 ==> Uncounted(pktSize) * n == 0
  {
    EightTimes(pktSize, n);
    Parted(8 * pktSize, PacketBits(pktSize), Uncounted(pktSize), n);
  }

  lemma Parted(a: nat, b: nat, c: nat, n: nat)
    requires a == b + c
    ensures a * n == b * n + c * n
  {
  }

  lemma WrappedBits(pktSize: nat)
    requires pktSize >= 0x2000_0000
    ensures Uncounted(pktSize) >= UINT32
  {
  }

  lemma Overcounted(bits: nat, n: nat)
    requires bits >= UINT32 && n > 0
    ensures bits * n >= UINT32
  {
    assert bits * n == bits * (n - 1) + bits;
  }

  // A packet of 2^29 bytes counts for no bits: it is sent as soon as the source starts.
  lemma LargePacketExample()
    ensures var s := Source(8, PacketBits(0x2000_0000), 0, 0.0, None, 0, 0.0, 0.0, 0).Started();
      && s.Sound() && s.sendAt == Some(0.0)
      && s.At(0.0).PacketSent().Sound() && !Accounted(s.At(0.0).PacketSent(), 0x2000_0000)
  {
  }
}
