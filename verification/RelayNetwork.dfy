/** A unicast packet on its way through a network: from the interface of one node, over one relay or
    none, to what the node it is for hands up. */
module RelayNetwork {
  import opened FrameFields
  import opened MacAddress
  import opened MacHeader
  import opened MbrRoute
  import opened NeighborTable
  import opened CrossVertex
  import opened GeoMove
  import opened Morton
  import opened Options
  import opened RoadGraph
  import opened RelayPath

  // The MAC layers of the nodes, found by their addresses.
  type Network = map<Mac, OcbWifiMac>

  ghost predicate Addresses(net: Network) {
    forall a :: a in net ==> net[a].address == a && !IsGroup(a)
  }

  // The medium takes a frame to the node with its first address; a node does not hear itself.
  predicate Hears(net: Network, from: Mac, to: Mac) { to in net && to != from }

  // The frame of the packet gets to a node, and is not lost there when that node only relays it.
  predicate Arrives(net: Network, from: Mac, packet: Packet, to: Mac) {
    if Relayed(packet)
    then Hears(net, from, packet.tag.value.relayMac) && Hears(net, packet.tag.value.relayMac, to)
    else Hears(net, from, to)
  }

  // The address a packet was last sent from when it arrives.
  function LastHop(from: Mac, packet: Packet): Mac {
    if Relayed(packet) then packet.tag.value.relayMac else from
  }

  // How many frames the node a puts into its queue for the packet.
  function Frames(net: Network, from: Mac, packet: Packet, a: Mac): nat {
    if a == from then 1
    else if Relayed(packet) && a == packet.tag.value.relayMac && Hears(net, from, a) then 1
    else 0
  }

  // What every node has handed up, and how many frames it has queued.
  datatype State = State(up: map<Mac, seq<Delivery>>, frames: map<Mac, nat>)
  {
    ghost function Up(a: Mac, d: Delivery): State
      requires a in up
    {
      this.(up := up[a := up[a] + [d]])
    }

    ghost function Queued(a: Mac): State
      requires a in frames
    {
      this.(frames := frames[a := frames[a] + 1])
    }
  }

  ghost function StateOf(net: Network): (s: State)
    reads net.Values
    ensures s.up.Keys == s.frames.Keys == net.Keys
  {
    State(map a | a in net :: net[a].up, map a | a in net :: |net[a].queue|)
  }

  // What becomes of a packet handed to the MAC layer of a node: it goes up once at the node it is
  // for or, when it does not arrive, nowhere, and only the sender and the relay queue it.
  ghost predicate Carried(net: Network, from: Mac, packet: Packet, to: Mac, s: State, s': State) {
    && s.up.Keys == s'.up.Keys == s.frames.Keys == s'.frames.Keys == net.Keys
    && (Arrives(net, from, packet, to) ==> s'.up[to] == s.up[to] + [Delivery(packet, LastHop(from, packet), to)])
    && (forall a :: a in net && !(a == to && Arrives(net, from, packet, to)) ==> s'.up[a] == s.up[a])
    && (forall a :: a in net ==> s'.frames[a] == s.frames[a] + Frames(net, from, packet, a))
  }

  // The sender's frames are heard by the destination and by the relay, if there is one.
  predicate Reached(net: Network, from: Mac, packet: Packet, to: Mac) {
    Hears(net, from, to) && (Relayed(packet) ==> Hears(net, from, packet.tag.value.relayMac))
  }

  ghost predicate GoesUp(net: Network, from: Mac, packet: Packet, to: Mac, s: State, s': State)
    requires to in s.up && to in s'.up
  {
    s'.up[to] == s.up[to] + [Delivery(packet, LastHop(from, packet), to)]
  }

  // Then the packet arrives unless the relay it is tagged with has the address of the destination,
  // in which case nothing goes up anywhere.
  lemma LostExactly(net: Network, from: Mac, packet: Packet, to: Mac, s: State, s': State)
    requires Carried(net, from, packet, to, s, s') && Reached(net, from, packet, to)
    ensures to in s.up && to in s'.up
    ensures GoesUp(net, from, packet, to, s, s') <==> !Relayed(packet) || packet.tag.value.relayMac != to
    ensures s'.up == s.up <==> Relayed(packet) && packet.tag.value.relayMac == to
  {
    if s'.up == s.up { assert s'.up[to] == s.up[to]; }
  }

  ghost predicate Counts(net: Network, s: State) { s.up.Keys == s.frames.Keys == net.Keys }

  // The frame of the sender is lost, or goes up where it arrives.
  lemma OneFrame(net: Network, from: Mac, packet: Packet, to: Mac, s: State)
    requires Counts(net, s) && from in net
    ensures !Hears(net, from, if Relayed(packet) then packet.tag.value.relayMac else to) ==> Carried(net, from, packet, to, s, s.Queued(from))
    ensures !Relayed(packet) && Hears(net, from, to) ==>
      Carried(net, from, packet, to, s, s.Queued(from).Up(to, Delivery(packet, from, to)))
  {
  }

  // The same for the frame of the relay.
  lemma TwoFrames(net: Network, from: Mac, packet: Packet, to: Mac, s: State)
    requires Counts(net, s) && from in net && Relayed(packet) && Hears(net, from, packet.tag.value.relayMac)
    ensures var relay := packet.tag.value.relayMac; var s' := s.Queued(from).Queued(relay);
      && (!Hears(net, relay, to) ==> Carried(net, from, packet, to, s, s'))
      && (Hears(net, relay, to) ==> Carried(net, from, packet, to, s, s'.Up(to, Delivery(packet, relay, to))))
  {
  }

  // Enqueue at a node of the network.
  method Queue(net: Network, from: Mac, packet: Packet, to: Mac, fresh': Header) returns (frame: Frame)
    requires Addresses(net) && from in net
    modifies net.Values
    ensures StateOf(net) == old(StateOf(net)).Queued(from)
    ensures frame.packet == packet && frame.h == Addressed(packet, to, from, net[from].noOrder, fresh')
  {
    var sender := net[from];
    sender.Enqueue(packet, to, fresh');
    frame := sender.queue[|sender.queue| - 1];
  }

  // A node gets a data frame: it passes a relayed one on, and hands up any other.
  method Get(net: Network, a: Mac, packet: Packet, h: Header) returns (again: Option<Frame>)
    requires Addresses(net) && a in net && h.IsData() && !h.IsQosData() && h.addr3 == BROADCAST
    modifies net.Values
    ensures h.IsMBRData() ==> StateOf(net) == old(StateOf(net)).Queued(a) && again == Some(Frame(packet, Plain(h, h.addr4, a)))
    ensures !h.IsMBRData() ==> StateOf(net) == old(StateOf(net)).Up(a, Delivery(packet, h.addr2, h.addr1)) && again == None
  {
    var node := net[a];
    node.ReceiveData(packet, h);
    again := if h.IsMBRData() then Some(node.queue[|node.queue| - 1]) else None;
  }

  // A packet handed to the MAC layer of a node. fresh', g and g' are what the headers hold before
  // they are filled.
  method UnicastHop(net: Network, from: Mac, packet: Packet, to: Mac, fresh': Header, g: Header, g': Header)
    requires Addresses(net) && from in net && !IsGroup(to) && (Relayed(packet) ==> !IsGroup(packet.tag.value.relayMac))
    requires fresh'.InWidth() && g.InWidth() && g'.InWidth()
    modifies net.Values
    ensures Carried(net, from, packet, to, old(StateOf(net)), StateOf(net))
  {
    hide FrameControl, ControlOf, SequenceControl, SequenceOf, QosControl, QosOf, Read, Serialized, OverTheAir, IsGroup, Addressed, StateOf,
      Carried, State.Up, State.Queued;
    ghost var s := StateOf(net);
    OneFrame(net, from, packet, to, s);
    if Relayed(packet) && Hears(net, from, packet.tag.value.relayMac) { TwoFrames(net, from, packet, to, s); }
    FirstArrival(packet, to, from, net[from].noOrder, fresh', g);
    var sent := Queue(net, from, packet, to, fresh');
    var first := OverTheAir(sent.h, g);
    if !Hears(net, from, first.addr1) { return; }
    var again := Get(net, first.addr1, sent.packet, first);
    if again.None? { return; }
    SecondArrival(first, first.addr1, g');
    var second := OverTheAir(again.value.h, g');
    if Hears(net, first.addr1, second.addr1) {
      var _ := Get(net, second.addr1, again.value.packet, second);
    }
  }

  // The packet is for the destination's live entry and tagged with another live entry as its relay.
  ghost predicate ThroughAnother(live: seq<Neighbor>, dest: Ip, now: int, packet: Packet, to: Mac) {
    && (exists at :: 0 <= at < |live| && live[at].ip == dest && live[at].mac == to)
    && (exists k :: 0 <= k < |live| && live[k].ip != dest && live[k].expireTime >= now
                    && packet.tag == Some(Tag(true, live[k].mac)))
  }

  // A unicast packet from the interface of a node on: it stays there while its address is not
  // resolved; else it goes through the network, for the destination's live entry by a relay or for
  // the address resolved without one.
  method SendUnicast(net: Network, from: Mac, p: Packet, dest: Ip, arp: Option<Mac>, route: MbrRoute, initialized: bool,
                     nb: Neighbors?, here: Surroundings, now: int, fresh': Header, g: Header, g': Header, ghost all: seq<Vertex>)
    returns (item: Option<Item>)
    requires Addresses(net) && from in net && fresh'.InWidth() && g.InWidth() && g'.InWidth()
    requires nb != null ==> nb.Valid() && nb.clock <= now
    requires Closed(Adjacency(all)) && forall u, v :: u in all && v in all && u.id == v.id ==> u == v
    requires forall v :: v in all ==> Fits(v.geoHash, GEOHASH_STEP_BIT)
    requires here.vertex in all && forall h, p :: here.vertexOf(h, p) in all
    requires (arp.Some? ==> !IsGroup(arp.value)) && (nb != null ==> forall i :: 0 <= i < |nb.nb| ==> !IsGroup(nb.nb[i].mac))
    modifies route, nb, net.Values
    ensures item.None? ==> arp.None? && StateOf(net) == old(StateOf(net))
    ensures item.Some? ==> item.value.packet.contents == p.contents
    ensures item.Some? ==> Carried(net, from, item.value.packet, item.value.destination, old(StateOf(net)), StateOf(net))
    ensures item.Some? && !Relayed(item.value.packet) ==> item.value.packet.tag == None && arp == Some(item.value.destination)
    ensures item.Some? && Relayed(item.value.packet) ==>
      nb != null && nb.nb == Live(old(nb.nb), now) && ThroughAnother(nb.nb, dest, now, item.value.packet, item.value.destination)
    // with the destination and the relay there, it goes up at the destination exactly when there is
    // no relay or the relay has another MAC address
    ensures item.Some? && Reached(net, from, item.value.packet, item.value.destination) ==>
      (GoesUp(net, from, item.value.packet, item.value.destination, old(StateOf(net)), StateOf(net)) <==>
       !Relayed(item.value.packet) || item.value.packet.tag.value.relayMac != item.value.destination)
  {
    hide *;
    ghost var relayed, toMac, relayMac;
    item, relayed, toMac, relayMac := Send(p, dest, false, arp, BROADCAST, route, initialized, nb, here, now, all);
    TaggedOrNot(p, relayMac);
    if item.None? { return; }
    if relayed { IsThrough(nb.nb, old(nb.nb), dest, now, item.value.packet, toMac, relayMac); }
    UnicastHop(net, from, item.value.packet, item.value.destination, fresh', g, g');
    if Reached(net, from, item.value.packet, item.value.destination) {
      LostExactly(net, from, item.value.packet, item.value.destination, old(StateOf(net)), StateOf(net));
    }
  }

  lemma TaggedOrNot(p: Packet, relayMac: Mac)
    ensures !Relayed(p.(tag := None)) && Relayed(p.(tag := Some(Tag(true, relayMac))))
  {
  }

  // Entries that are still live have the addresses they had.
  lemma IsThrough(live: seq<Neighbor>, nb: seq<Neighbor>, dest: Ip, now: int, packet: Packet, toMac: Mac, relayMac: Mac)
    requires live == Live(nb, now) && forall i :: 0 <= i < |nb| ==> !IsGroup(nb[i].mac)
    requires exists at :: 0 <= at < |live| && live[at].ip == dest && live[at].mac == toMac
    requires exists k :: 0 <= k < |live| && live[k].ip != dest && live[k].mac == relayMac && live[k].expireTime >= now
    requires packet.tag == Some(Tag(true, relayMac))
    ensures ThroughAnother(live, dest, now, packet, toMac) && !IsGroup(toMac) && !IsGroup(relayMac)
  {
    hide IsGroup;
    forall i | 0 <= i < |live|
      ensures !IsGroup(live[i].mac)
    {
      assert live[i] in nb;
    }
  }
}
