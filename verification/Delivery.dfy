/** What a datagram does to the interfaces of the listener that receives it, and the way of a packet from one device to
    another. */
module Delivery {
  import opened Addresses
  import opened ArpProtocol
  import ArpTable
  import opened Forwarding
  import opened Parsing
  import opened Passage
  import opened Reconcile
  import opened Registry
  import opened Sequences
  import opened Tunnel
  import opened Wire

  // ---------------------------------------------------------------- the layers one by one

  /** What an interface with this hardware address writes to its device when it goes through these kinds of layer. */
  function TunWrites(mac: Mac, p: Parsed, kinds: seq<Kind>): seq<Bytes> {
    if p.dst == mac then Packets(p, kinds) else []
  }

  /** The interface after these kinds of layer: every ARP layer is handled. `parse` reads the byte slices of one. */
  function AfterKinds(i: InterfaceState, p: Parsed, kinds: seq<Kind>, parse: Arp -> Packet, now: ArpTable.Time): (r: InterfaceState)
    ensures r.(arp := i.arp) == i
  {
    if kinds == [] then i
    else
      var n := |kinds| - 1;
      var j := AfterKinds(i, p, kinds[..n], parse, now);
      if kinds[n] == ArpKind && p.arp.Some?
      then j.(arp := AfterPacket(j.arp, j.mac, j.addresses, j.macs, parse(p.arp.value), now))
      else j
  }

  /** The replies that these kinds of layer make an interface with this hardware address and these tables send. */
  function RepliesOver(mac: Mac, addresses: seq<Prefix>, macs: MacTable, p: Parsed, kinds: seq<Kind>, parse: Arp -> Packet): seq<Packet> {
    if kinds == [] then []
    else
      var n := |kinds| - 1;
      RepliesOver(mac, addresses, macs, p, kinds[..n], parse) +
      if kinds[n] == ArpKind && p.arp.Some? then RepliesTo(mac, addresses, macs, parse(p.arp.value)) else []
  }

  lemma TunWritesGrow(mac: Mac, p: Parsed, kinds: seq<Kind>, n: nat)
    requires n < |kinds|
    ensures TunWrites(mac, p, kinds[..n + 1]) == TunWrites(mac, p, kinds[..n]) + if p.dst == mac then PacketOf(p, kinds[n]) else []
  {
    assert kinds[..n + 1][..n] == kinds[..n];
    assert kinds[..n + 1][n] == kinds[n];
  }

  lemma AfterKindsGrow(i: InterfaceState, p: Parsed, kinds: seq<Kind>, n: nat, parse: Arp -> Packet, now: ArpTable.Time)
    requires n < |kinds| && Complete(p) && kinds[n] in p.decoded
    ensures var j := AfterKinds(i, p, kinds[..n], parse, now);
      AfterKinds(i, p, kinds[..n + 1], parse, now) ==
      if kinds[n].ArpKind? then j.(arp := AfterPacket(j.arp, j.mac, j.addresses, j.macs, parse(p.arp.value), now)) else j
  {
    assert kinds[..n + 1][..n] == kinds[..n];
    assert kinds[..n + 1][n] == kinds[n];
  }

  lemma RepliesGrow(mac: Mac, addresses: seq<Prefix>, macs: MacTable, p: Parsed, kinds: seq<Kind>, n: nat, parse: Arp -> Packet)
    requires n < |kinds| && Complete(p) && kinds[n] in p.decoded
    ensures RepliesOver(mac, addresses, macs, p, kinds[..n + 1], parse) ==
            RepliesOver(mac, addresses, macs, p, kinds[..n], parse) +
            if kinds[n].ArpKind? then RepliesTo(mac, addresses, macs, parse(p.arp.value)) else []
  {
    assert kinds[..n + 1][..n] == kinds[..n];
    assert kinds[..n + 1][n] == kinds[n];
  }

  // ---------------------------------------------------------------- the frame

  /** Does the frame reach the interface at all? */
  predicate Reached(i: InterfaceState, f: Option<Frame>) {
    f.Some? && f.value.vni == i.vni
  }

  /** The packets written to an interface's device when its listener receives a frame. */
  function Delivered(i: InterfaceState, f: Option<Frame>): seq<Bytes> {
    if Reached(i, f) then TunWrites(i.mac, f.value.parsed, f.value.parsed.decoded) else []
  }

  /** The interface afterwards. */
  function AfterFrame(i: InterfaceState, f: Option<Frame>, parse: Arp -> Packet, now: ArpTable.Time): InterfaceState {
    if Reached(i, f) then AfterKinds(i, f.value.parsed, f.value.parsed.decoded, parse, now) else i
  }

  /** The ARP replies a frame makes an interface send. */
  function Replies(i: InterfaceState, f: Frame, parse: Arp -> Packet): seq<Packet> {
    RepliesOver(i.mac, i.addresses, i.macs, f.parsed, f.parsed.decoded, parse)
  }

  /** The frame changes the interface, or makes it write a packet or send a reply. */
  ghost predicate Disturbs(i: InterfaceState, f: Option<Frame>, parse: Arp -> Packet, now: ArpTable.Time) {
    AfterFrame(i, f, parse, now) != i || Delivered(i, f) != [] || (Reached(i, f) && Replies(i, f.value, parse) != [])
  }

  /** Exclusive delivery. Of the interfaces of a listener a frame disturbs at most one, the one at the position of its
      VNI. */
  lemma DeliveryIsExclusive(s: seq<InterfaceState>, f: Option<Frame>, parse: Arp -> Packet, now: ArpTable.Time, k: nat)
    requires UniqueVnis(s) && k < |s| && Disturbs(s[k], f, parse, now)
    ensures f.Some? && FindVni(s, f.value.vni) == k
    ensures forall j :: 0 <= j < |s| && j != k ==> !Disturbs(s[j], f, parse, now) && !Reached(s[j], f)
  {
  }

  /** From device to device. A consistent IPv4 packet, sent to a hardware address on a VNI, is written unchanged and alone
      to the interface of the receiving listener with that VNI and hardware address exactly when its checksum is the computed
      one, its options are kept, and it is a fragment or its protocol is none of 4, 41 and 94; and whatever it is, nothing is
      written to any other interface. */
  lemma EndToEnd(vni: nat, dst: Bytes, src: Bytes, packet: Bytes, l: ListenerState, i: InterfaceState)
    requires vni < 0x100_0000 && |dst| == 6 && |src| == 6 && Consistent(packet)
    requires i in l.interfaces && 8 + FrameSize(|packet|) <= l.maxMessageSize
    ensures var f := RoundTrip(vni, dst, src, packet, l.maxMessageSize);
      if i.vni == vni && i.mac == dst
      then Delivered(i, f) == [packet] <==> ChecksumExact(packet) && OptionsKept(packet) && Plain(packet)
      else Delivered(i, f) == []
  {
    PassesIff(vni, dst, src, packet, l.maxMessageSize);
    Addressed(vni, dst, src, packet, l.maxMessageSize);
  }

  /** An IPv6 packet that is received behind the headers of a frame, whatever hardware address that is for, is written
      unchanged and alone to the interface with its VNI and hardware address, and nowhere else, unless it has a hop-by-hop
      header or carries another IP packet. */
  lemma SixArrives(vni: nat, dst: Bytes, src: Bytes, packet: Bytes, i: InterfaceState, bufferSize: nat)
    requires vni < 0x100_0000 && |dst| == 6 && |src| == 6 && 8 + FrameSize(|packet|) <= bufferSize
    requires WholeIPv6(packet) && packet[6] !in {0, 4, 41, 94}
    ensures var f := Received(VxlanHeader(vni) + Padded(EthernetHeader(dst, src, 0x86DD) + packet), bufferSize);
      Delivered(i, f) == if i.vni == vni && i.mac == dst then [packet] else []
  {
    DecodeHeaders(vni, dst, src, ETHERTYPE_IPV6, packet);
    var data := VxlanHeader(vni) + Padded(EthernetHeader(dst, src, ETHERTYPE_IPV6) + packet);
    ReceivedFrame(data, vni, dst, src, ETHERTYPE_IPV6, packet + Padding(|packet|), bufferSize);
    PlainSixDecodes(packet, Padding(|packet|));
    var ip := IPv6(packet[6], packet[..40], packet[40..]);
    var p := Parsed([EthernetKind, IPv6Kind], dst, src, None, None, Some(ip));
    assert [EthernetKind] + [IPv6Kind] == p.decoded;
    assert ParseBehind(dst, src, ETHERTYPE_IPV6, packet + Padding(|packet|)) == Some(p);
    WrittenSix(i.mac, p, ip);
    assert packet[..40] + packet[40..] == packet;
  }

  lemma WrittenSix(mac: Mac, p: Parsed, ip: IPv6)
    requires p.decoded == [EthernetKind, IPv6Kind] && p.ip6 == Some(ip)
    ensures TunWrites(mac, p, p.decoded) == if p.dst == mac then [ip.contents + ip.payload] else []
  {
    var one: seq<Kind> := [EthernetKind];
    assert p.decoded[..1] == one && one[..0] == [];
    assert Packets(p, one) == [];
  }

  // ---------------------------------------------------------------- sizes

  /** The outer datagram around a packet of this length is no longer than the listener's maximum. */
  predicate Fits(length: nat, maxMessageSize: int) {
    20 + 8 + 8 + FrameSize(length) <= maxMessageSize
  }

  /** An interface whose MTU is left to the listener, on one that admits a padded frame, is asked to take every packet that
      fits the tunnel and no other; any other MTU is asked for as it is. */
  lemma DefaultMtuIsLargest(mtu: int, maxMessageSize: int, length: nat)
    requires 96 <= maxMessageSize
    ensures mtu <= 1 ==> (length <= EffectiveMtu(mtu, maxMessageSize) <==> Fits(length, maxMessageSize))
    ensures mtu > 1 ==> EffectiveMtu(mtu, maxMessageSize) == mtu
  {
    OuterDatagramFitsIff(length, maxMessageSize);
  }

  /** On a device's MTU event the packet reader gets the device's MTU exactly as far as that fits the tunnel; a negative one
      changes nothing. */
  lemma EventMtuIsCapped(i: InterfaceState, maxMessageSize: int, length: nat)
    requires 96 <= maxMessageSize
    ensures var j := MtuEvent(i, maxMessageSize);
      && j.(mtu := i.mtu) == i
      && if i.deviceMtu < 0 then j.mtu == i.mtu
         else length <= j.mtu <==> length <= i.deviceMtu && Fits(length, maxMessageSize)
  {
    OuterDatagramFitsIff(length, maxMessageSize);
  }
}
