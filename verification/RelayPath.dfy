/** How a unicast packet leaves a node and reaches the next one: ipv4-interface.cc tags it with a
    relay, ocb-wifi-mac.cc addresses the frame and passes a relayed frame on. */
module RelayPath {
  import opened FrameFields
  import opened MacAddress
  import opened MacHeader
  import opened MbrRoute
  import opened NeighborTable
  import opened CrossVertex
  import opened GeoMove
  import opened Morton
  import opened Options
  import opened RoadGraph

  // MbrTag
  datatype Tag = Tag(relaying: bool, relayMac: Mac)

  // A packet, by its contents, and the tag it carries.
  datatype Packet = Packet(contents: int, tag: Option<Tag>)

  // What is handed to the device: a packet for a MAC address.
  datatype Item = Item(packet: Packet, destination: Mac)

  // ---- ipv4-interface.cc ----

  // Send for a unicast address on a device that needs ARP. directed says whether the address is the
  // directed broadcast address of a subnet, arp what the ARP lookup finds. An old tag is removed
  // whenever the forward decision is asked for, and a new one is put on when there is a relay.
  method Send(p: Packet, dest: Ip, directed: bool, arp: Option<Mac>, broadcast: Mac, route: MbrRoute, initialized: bool,
              nb: Neighbors?, here: Surroundings, now: int, ghost all: seq<Vertex>)
    returns (item: Option<Item>, ghost relayed: bool, ghost toMac: Mac, ghost relayMac: Mac)
    requires nb != null ==> nb.Valid() && nb.clock <= now
    requires Closed(Adjacency(all)) && forall u, v :: u in all && v in all && u.id == v.id ==> u == v
    requires forall v :: v in all ==> Fits(v.geoHash, GEOHASH_STEP_BIT)
    requires here.vertex in all && forall h, p :: here.vertexOf(h, p) in all
    modifies route, nb
    ensures directed ==> !relayed && item == Some(Item(p, broadcast))
    ensures !directed && relayed ==> item == Some(Item(p.(tag := Some(Tag(true, relayMac))), toMac))
    ensures !directed && !relayed ==>
      item == match arp case None => None case Some(mac) => Some(Item(p.(tag := None), mac))
    // with a relay, the packet is for the destination's live entry and the relay is another one
    ensures relayed ==>
      && nb != null && nb.nb == Live(old(nb.nb), now)
      && (exists at :: 0 <= at < |nb.nb| && nb.nb[at].ip == dest && nb.nb[at].mac == toMac)
      && (exists k :: 0 <= k < |nb.nb| && nb.nb[k].ip != dest && nb.nb[k].mac == relayMac && nb.nb[k].expireTime >= now)
  {
    hide *;
    relayed, toMac, relayMac := false, NO_MAC, NO_MAC;
    var packet := p;
    if !directed {
      var ret, to, relay;
      ghost var at, list, trace, n, k;
      ret, to, relay, at, list, trace, n, k := route.MbrForward(dest, initialized, nb, here, now, all);
      packet := packet.(tag := None);
      if ret == 0 {
        ChosenMeans(nb.nb, k, list[n], dest, now, relay);
        relayed, toMac, relayMac := true, to, relay;
        packet := packet.(tag := Some(Tag(true, relay)));
        return Some(Item(packet, to)), relayed, toMac, relayMac;
      }
    }
    if directed {
      item := Some(Item(packet, broadcast));
    } else {
      match arp
      case None => item := None;
      case Some(mac) => item := Some(Item(packet, mac));
    }
  }

  lemma ChosenMeans(live: seq<Neighbor>, k: nat, v: Vertex, dest: Ip, now: int, mac: Mac)
    requires Chosen(live, k, v, dest, now, mac)
    ensures k < |live| && live[k].ip != dest && live[k].expireTime >= now && live[k].mac == mac
  {
  }

  // ---- ocb-wifi-mac.cc ----

  // SetTypeData and SetTypeMBRData, with the addresses of both.
  function Plain(h: Header, to: Mac, self: Mac): Header {
    h.(control := h.control.(ctrlType := TYPE_DATA, ctrlSubtype := 0, fromDs := 0, toDs := 0),
       addr1 := to, addr2 := self, addr3 := BROADCAST)
  }

  function ToRelay(h: Header, relay: Mac, to: Mac, self: Mac): Header {
    h.(control := h.control.(ctrlType := TYPE_DATA, ctrlSubtype := 16, fromDs := 0, toDs := 0),
       addr1 := relay, addr2 := self, addr3 := BROADCAST, addr4 := to)
  }

  datatype Frame = Frame(packet: Packet, h: Header)

  // What ForwardUp is called with.
  datatype Delivery = Delivery(packet: Packet, from: Mac, to: Mac)

  class OcbWifiMac {
    const address: Mac
    const noOrder: bool
    var relayedPkt: nat
    // the frames queued for transmission, the packets handed up, and the aggregates taken apart
    var queue: seq<Frame>
    var up: seq<Delivery>
    var deaggregated: seq<Frame>

    constructor (address: Mac, noOrder: bool)
      ensures this.address == address && this.noOrder == noOrder && relayedPkt == 0 && queue == [] && up == [] && deaggregated == []
    {
      this.address, this.noOrder := address, noOrder;
      relayedPkt, queue, up, deaggregated := 0, [], [], [];
    }

    // Enqueue; fresh is what the constructor of WifiMacHeader leaves.
    method Enqueue(packet: Packet, to: Mac, fresh': Header)
      modifies this
      ensures up == old(up) && deaggregated == old(deaggregated) && |queue| == |old(queue)| + 1 && old(queue) <= queue
      ensures var frame := queue[|old(queue)|];
        && frame.packet == packet
        && frame.h == NoOrder(if Relayed(packet) then ToRelay(fresh', packet.tag.value.relayMac, to, address)
                              else Plain(fresh', to, address), noOrder)
      ensures relayedPkt == old(relayedPkt) + if Relayed(packet) then 1 else 0
    {
      var hdr := fresh';
      if Relayed(packet) {
        relayedPkt := relayedPkt + 1;
        hdr := hdr.(control := hdr.control.(ctrlType := TYPE_DATA, ctrlSubtype := 16));
        hdr := hdr.(addr1 := packet.tag.value.relayMac, addr2 := address, addr3 := BROADCAST, addr4 := to);
        hdr := hdr.(control := hdr.control.(fromDs := 0, toDs := 0));
      } else {
        hdr := hdr.(control := hdr.control.(ctrlType := TYPE_DATA, ctrlSubtype := 0));
        hdr := hdr.(addr1 := to, addr2 := address, addr3 := BROADCAST);
        hdr := hdr.(control := hdr.control.(fromDs := 0, toDs := 0));
      }
      if noOrder { hdr := hdr.(control := hdr.control.(order := 0)); }
      queue := queue + [Frame(packet, hdr)];
    }

    // Receive, for data frames: a relayed frame is queued again for its fourth address, whatever tag
    // the packet carries.
    method ReceiveData(packet: Packet, hdr: Header)
      requires hdr.IsData() && hdr.addr3 == BROADCAST
      modifies this
      ensures relayedPkt == old(relayedPkt)
      ensures hdr.IsQosData() && hdr.qos.amsduPresent == 1 ==>
        deaggregated == old(deaggregated) + [Frame(packet, hdr)] && queue == old(queue) && up == old(up)
      ensures hdr.IsMBRData() ==>
        queue == old(queue) + [Frame(packet, Plain(hdr, hdr.addr4, address))] && up == old(up) && deaggregated == old(deaggregated)
      ensures !(hdr.IsQosData() && hdr.qos.amsduPresent == 1) && !hdr.IsMBRData() ==>
        up == old(up) + [Delivery(packet, hdr.addr2, hdr.addr1)] && queue == old(queue) && deaggregated == old(deaggregated)
    {
      RelayedIsNotQos(hdr);
      if hdr.IsQosData() && hdr.qos.amsduPresent == 1 {
        deaggregated := deaggregated + [Frame(packet, hdr)];
      } else if hdr.IsMBRData() {
        var hdrRelay := hdr;
        hdrRelay := hdrRelay.(control := hdrRelay.control.(ctrlType := TYPE_DATA, ctrlSubtype := 0));
        hdrRelay := hdrRelay.(addr1 := hdr.addr4, addr2 := address, addr3 := BROADCAST);
        hdrRelay := hdrRelay.(control := hdrRelay.control.(fromDs := 0, toDs := 0));
        queue := queue + [Frame(packet, hdrRelay)];
      } else {
        up := up + [Delivery(packet, hdr.addr2, hdr.addr1)];
      }
    }
  }

  // MbrTag::isRelaying of the tag found, if any
  predicate Relayed(p: Packet) { p.tag.Some? && p.tag.value.relaying }

  function NoOrder(h: Header, noOrder: bool): Header {
    if noOrder then h.(control := h.control.(order := 0)) else h
  }

  lemma RelayedIsNotQos(h: Header)
    ensures h.IsMBRData() ==> !h.IsQosData()
  {
  }

  // ---- one hop ----

  // The header as the receiver sees it: written to bytes and read from them, into a header that
  // held g before.
  function OverTheAir(h: Header, g: Header): Header
    requires h.InWidth() && h.IsKnown()
  {
    ReadsWhatWasWritten(h, g, []);
    Read(Serialized(h) + [], g).0
  }

  // What Enqueue puts on the frame.
  function Addressed(packet: Packet, to: Mac, sender: Mac, noOrder: bool, fresh': Header): Header {
    NoOrder(if Relayed(packet) then ToRelay(fresh', packet.tag.value.relayMac, to, sender) else Plain(fresh', to, sender), noOrder)
  }

  // A data frame without QoS as it arrives, in a header that held g: the addresses survive, the
  // fourth when there is one.
  lemma DataArrival(sent: Header, g: Header)
    requires sent.InWidth() && sent.IsData() && sent.control.ctrlSubtype & 0x08 == 0
    ensures sent.IsKnown()
    ensures var got := OverTheAir(sent, g);
      && got.control == sent.control && got.addr1 == sent.addr1 && got.addr2 == sent.addr2 && got.addr3 == sent.addr3
      && got.sequence == sent.sequence && got.qos == g.qos && (sent.HasAddr4() ==> got.addr4 == sent.addr4)
  {
    ReadsWhatWasWritten(sent, g, []);
    hide Read, Serialized, FrameControl, ControlOf, SequenceControl, SequenceOf, QosControl, QosOf;
    assert OverTheAir(sent, g) == Carried(sent, g);
  }

  // A data frame of a subtype, neither to nor from a distribution system.
  predicate InOwnCell(h: Header, ctrlSubtype: bv8) {
    h.control.ctrlType == 2 && h.control.ctrlSubtype == ctrlSubtype && h.control.toDs == 0 && h.control.fromDs == 0
  }

  // The frame as it arrives at its first address.
  lemma FirstArrival(packet: Packet, to: Mac, sender: Mac, noOrder: bool, fresh': Header, g: Header)
    requires fresh'.InWidth() && g.InWidth()
    ensures var sent := Addressed(packet, to, sender, noOrder, fresh');
      && sent.InWidth() && sent.IsKnown()
      && var first := OverTheAir(sent, g);
         && first.InWidth() && first.IsData() && !first.IsQosData() && first.addr2 == sender && first.addr3 == BROADCAST
         && first.IsMBRData() == Relayed(packet) && InOwnCell(first, if Relayed(packet) then 16 else 0)
         && first.addr1 == (if Relayed(packet) then packet.tag.value.relayMac else to)
         && (Relayed(packet) ==> first.addr4 == to)
         && first.control.order == (if noOrder then 0 else fresh'.control.order)
  {
    hide OverTheAir, Addressed, Relayed;
    AddressedIs(packet, to, sender, noOrder, fresh');
    DataArrival(Addressed(packet, to, sender, noOrder, fresh'), g);
  }

  lemma AddressedIs(packet: Packet, to: Mac, sender: Mac, noOrder: bool, fresh': Header)
    requires fresh'.InWidth()
    ensures var sent := Addressed(packet, to, sender, noOrder, fresh');
      && sent.InWidth() && sent.IsData() && sent.addr2 == sender && sent.addr3 == BROADCAST && sent.qos == fresh'.qos
      && sent.control.ctrlSubtype == (if Relayed(packet) then 16 else 0) && InOwnCell(sent, sent.control.ctrlSubtype)
      && sent.addr1 == (if Relayed(packet) then packet.tag.value.relayMac else to)
      && (Relayed(packet) ==> sent.addr4 == to)
      && sent.control.order == (if noOrder then 0 else fresh'.control.order)
  {
  }

  // The frame that a relay sends on, as it arrives.
  lemma SecondArrival(first: Header, relay: Mac, g: Header)
    requires first.InWidth() && first.IsMBRData() && g.InWidth()
    ensures var again := Plain(first, first.addr4, relay);
      && again.InWidth() && again.IsKnown()
      && var second := OverTheAir(again, g);
         && second.IsData() && !second.IsMBRData() && !second.IsQosData() && InOwnCell(second, 0)
         && second.addr1 == first.addr4 && second.addr2 == relay && second.addr3 == BROADCAST
  {
    hide OverTheAir;
    DataArrival(Plain(first, first.addr4, relay), g);
  }

  // ---- directed broadcasts ----

  // A packet for a directed broadcast address, from the interface into the queue of the MAC layer.
  // An old tag stays on it, and the frame of such a packet is for the relay alone.
  method SendDirected(mac: OcbWifiMac, p: Packet, dest: Ip, arp: Option<Mac>, route: MbrRoute, initialized: bool,
                      nb: Neighbors?, here: Surroundings, now: int, fresh': Header, ghost all: seq<Vertex>)
    returns (frame: Frame)
    requires nb != null ==> nb.Valid() && nb.clock <= now
    requires Closed(Adjacency(all)) && forall u, v :: u in all && v in all && u.id == v.id ==> u == v
    requires forall v :: v in all ==> Fits(v.geoHash, GEOHASH_STEP_BIT)
    requires here.vertex in all && forall h, p :: here.vertexOf(h, p) in all
    modifies mac, route, nb
    ensures mac.queue == old(mac.queue) + [frame] && mac.up == old(mac.up)
    ensures frame.packet == p && frame.h.addr2 == mac.address && frame.h.IsData() && frame.h.IsMBRData() == Relayed(p)
    ensures frame.h.addr1 == if Relayed(p) then p.tag.value.relayMac else BROADCAST
    ensures Relayed(p) ==> frame.h.addr4 == BROADCAST
  {
    hide Closed, Adjacency, Fits;
    var item;
    ghost var relayed, toMac, relayMac;
    item, relayed, toMac, relayMac := Send(p, dest, true, arp, BROADCAST, route, initialized, nb, here, now, all);
    mac.Enqueue(item.value.packet, item.value.destination, fresh');
    frame := mac.queue[|mac.queue| - 1];
  }

  // It is the relay that broadcasts it then: what it sends on when the frame arrives.
  lemma RelayBroadcasts(packet: Packet, sender: Mac, noOrder: bool, fresh': Header, g: Header, g': Header)
    requires Relayed(packet) && fresh'.InWidth() && g.InWidth() && g'.InWidth()
    ensures var sent := Addressed(packet, BROADCAST, sender, noOrder, fresh');
      && sent.InWidth() && sent.IsKnown()
      && var first := OverTheAir(sent, g);
         && first.addr1 == packet.tag.value.relayMac && first.IsMBRData()
         && var again := Plain(first, first.addr4, packet.tag.value.relayMac);
            && again.InWidth() && again.IsKnown()
            && var second := OverTheAir(again, g');
               second.addr1 == BROADCAST && second.addr2 == packet.tag.value.relayMac && !second.IsMBRData()
  {
    hide OverTheAir, Addressed, Plain;
    FirstArrival(packet, BROADCAST, sender, noOrder, fresh', g);
    SecondArrival(OverTheAir(Addressed(packet, BROADCAST, sender, noOrder, fresh'), g), packet.tag.value.relayMac, g');
  }
}
