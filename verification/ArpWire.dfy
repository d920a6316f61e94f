/** ARP layers as they travel: the slices that addresses become, the layers that the program builds for a request and a
    reply, and what each of them does to the interface that receives it. */
module ArpWire {
  import opened Addresses
  import opened ArpProtocol
  import ArpTable
  import opened Bits
  import opened Delivery
  import Exchange
  import opened Forwarding
  import opened Parsing
  import opened Registry
  import opened Sequences
  import opened Tunnel
  import opened Wire

  // ---------------------------------------------------------------- addresses as slices

  function WordBytes(w: bv32): (b: Bytes)
    ensures |b| == 4
  {
    [ByteOf(Octet(w, 0)), ByteOf(Octet(w, 1)), ByteOf(Octet(w, 2)), ByteOf(Octet(w, 3))]
  }

  function WordAt(b: Bytes, at: nat): bv32
    requires at + 4 <= |b|
  {
    Word(b[at] as bv8, b[at + 1] as bv8, b[at + 2] as bv8, b[at + 3] as bv8)
  }

  function High(n: bv64): bv32 {
    (n >> 32) as bv32
  }

  function Low(n: bv64): bv32 {
    (n & 0xFFFF_FFFF) as bv32
  }

  function Joined(high: bv32, low: bv32): bv64 {
    ((high as bv64) << 32) | (low as bv64)
  }

  function HalfBytes(n: bv64): (b: Bytes)
    ensures |b| == 8
  {
    WordBytes(High(n)) + WordBytes(Low(n))
  }

  function HalfAt(b: Bytes, at: nat): bv64
    requires at + 8 <= |b|
  {
    Joined(WordAt(b, at), WordAt(b, at + 4))
  }

  /** The address as 4 or 16 bytes. */
  function AsSlice(a: Addr): Bytes {
    match a
    case V4(ip) => WordBytes(ip)
    case V6(hi, lo) => HalfBytes(hi) + HalfBytes(lo)
  }

  /** A slice of any other length is no address. */
  function FromSlice(b: Bytes): Option<Addr> {
    if |b| == 4 then Some(V4(WordAt(b, 0)))
    else if |b| == 16 then Some(V6(HalfAt(b, 0), HalfAt(b, 8)))
    else None
  }

  lemma WordOfBytes(w: bv32, b: Bytes, at: nat)
    requires at + 4 <= |b| && b[at..at + 4] == WordBytes(w)
    ensures WordAt(b, at) == w
  {
    var s := b[at..at + 4];
    assert s[0] == b[at] && s[1] == b[at + 1] && s[2] == b[at + 2] && s[3] == b[at + 3];
    ByteOfBack(Octet(w, 0), b[at]);
    ByteOfBack(Octet(w, 1), b[at + 1]);
    ByteOfBack(Octet(w, 2), b[at + 2]);
    ByteOfBack(Octet(w, 3), b[at + 3]);
    WordOfOctets(w);
  }

  lemma JoinedHalves(n: bv64)
    ensures Joined(High(n), Low(n)) == n
  {
  }

  lemma HalvesOfJoined(high: bv32, low: bv32)
    ensures High(Joined(high, low)) == high && Low(Joined(high, low)) == low
  {
  }

  lemma HalfOfBytes(n: bv64, b: Bytes, at: nat)
    requires at + 8 <= |b| && b[at..at + 8] == HalfBytes(n)
    ensures HalfAt(b, at) == n
  {
    var s := b[at..at + 8];
    assert s[..4] == b[at..at + 4] && s[4..] == b[at + 4..at + 8];
    WordOfBytes(High(n), b, at);
    WordOfBytes(Low(n), b, at + 4);
    JoinedHalves(n);
  }

  /** The slice of an address reads as the address. */
  lemma SliceRoundTrip(a: Addr)
    ensures FromSlice(AsSlice(a)) == Some(a)
  {
    var b := AsSlice(a);
    match a
    case V4(ip) =>
      assert b[0..4] == WordBytes(ip);
      WordOfBytes(ip, b, 0);
    case V6(hi, lo) =>
      assert b[0..8] == HalfBytes(hi) && b[8..16] == HalfBytes(lo);
      HalfOfBytes(hi, b, 0);
      HalfOfBytes(lo, b, 8);
  }

  lemma OctetsOfWord(a: Octet8, b: Octet8, c: Octet8, d: Octet8)
    ensures var w := Word(a, b, c, d); Octet(w, 0) == a && Octet(w, 1) == b && Octet(w, 2) == c && Octet(w, 3) == d
  {
  }

  lemma ByteAgain(n: Byte)
    ensures ByteOf(n as bv8) == n
  {
  }

  lemma BytesOfWord(b: Bytes, at: nat)
    requires at + 4 <= |b|
    ensures WordBytes(WordAt(b, at)) == b[at..at + 4]
  {
    OctetsOfWord(b[at] as bv8, b[at + 1] as bv8, b[at + 2] as bv8, b[at + 3] as bv8);
    ByteAgain(b[at]);
    ByteAgain(b[at + 1]);
    ByteAgain(b[at + 2]);
    ByteAgain(b[at + 3]);
  }

  lemma BytesOfHalf(b: Bytes, at: nat)
    requires at + 8 <= |b|
    ensures HalfBytes(HalfAt(b, at)) == b[at..at + 8]
  {
    BytesOfWord(b, at);
    BytesOfWord(b, at + 4);
    HalvesOfJoined(WordAt(b, at), WordAt(b, at + 4));
    assert b[at..at + 4] + b[at + 4..at + 8] == b[at..at + 8];
  }

  /** And a slice that reads as an address is the slice of that address. */
  lemma AddressRoundTrip(b: Bytes)
    requires FromSlice(b).Some?
    ensures AsSlice(FromSlice(b).value) == b
  {
    if |b| == 4 {
      BytesOfWord(b, 0);
      assert b[0..4] == b;
    } else {
      BytesOfHalf(b, 0);
      BytesOfHalf(b, 8);
      assert b[0..8] + b[8..16] == b;
    }
  }

  // ---------------------------------------------------------------- layers

  const ETHERNET_LINK: nat := 1
  const ARP_REQUEST: nat := 1
  const ARP_REPLY: nat := 2

  /** How the program reads a decoded layer. */
  function ReadArp(a: Arp): Packet {
    Packet(a.addrType == ETHERNET_LINK,
           if a.operation == ARP_REQUEST then Request
           else if a.operation == ARP_REPLY then Reply
           else OtherOperation(a.operation),
           a.srcHw, FromSlice(a.srcProt), a.dstHw, FromSlice(a.dstProt))
  }

  /** The layer of a request; the zero address has no slice. */
  function RequestLayer(mac: Mac, source: Option<Addr>, target: Addr): Arp {
    Arp(ETHERNET_LINK, if target.V4? then ETHERTYPE_IPV4 else ETHERTYPE_IPV6, ARP_REQUEST,
        mac, if source.Some? then AsSlice(source.value) else [], [0, 0, 0, 0, 0, 0], AsSlice(target))
  }

  /** The layer of the reply to a request whose addresses parse. */
  function ReplyLayer(a: Arp, mac: Mac): Arp
    requires FromSlice(a.srcProt).Some? && FromSlice(a.dstProt).Some?
  {
    Arp(a.addrType, a.protocol, ARP_REPLY,
        mac, AsSlice(FromSlice(a.dstProt).value), a.srcHw, AsSlice(FromSlice(a.srcProt).value))
  }

  /** The request's layer reads as the request. */
  lemma RequestReads(mac: Mac, source: Addr, target: Addr)
    ensures ReadArp(RequestLayer(mac, Some(source), target)) == RequestFor(mac, source, target)
  {
    SliceRoundTrip(source);
    SliceRoundTrip(target);
  }

  /** The reply's layer reads as the reply. */
  lemma ReplyReads(a: Arp, mac: Mac)
    requires FromSlice(a.srcProt).Some? && FromSlice(a.dstProt).Some?
    ensures ReadArp(ReplyLayer(a, mac)) == ReplyTo(ReadArp(a), mac)
  {
    AddressRoundTrip(a.srcProt);
    AddressRoundTrip(a.dstProt);
  }

  /** The serializer takes a request exactly when some prefix of ours is of the target's family. */
  lemma RequestIsWholeIff(mac: Mac, addresses: seq<Prefix>, target: Addr)
    requires |mac| == 6
    ensures WholeArp(RequestLayer(mac, SourceAddress(addresses, target), target)) <==>
            exists p :: p in addresses && p.addr.V4? == target.V4?
  {
    RequestShape(addresses, target);
  }

  lemma ReplyIsWhole(a: Arp, mac: Mac)
    requires WholeArp(a) && |mac| == |a.srcHw|
    requires FromSlice(a.srcProt).Some? && FromSlice(a.dstProt).Some?
    ensures WholeArp(ReplyLayer(a, mac))
  {
    AddressRoundTrip(a.srcProt);
    AddressRoundTrip(a.dstProt);
  }

  // ---------------------------------------------------------------- what a datagram with an ARP layer does

  /** The datagram that SendLayers makes of a layer. */
  function ArpDatagram(vni: nat, dst: Mac, src: Mac, a: Arp): Bytes
    requires vni < 0x100_0000 && WholeArp(a)
  {
    Serialize(ArpLayers(vni, dst, src, a), []).1
  }

  /** A datagram with a whole ARP layer, received by a listener, is handled by the interface with its VNI, whatever
      hardware address its frame is for, exactly as the packet that the layer reads as; nothing is written to any device,
      and no other interface takes notice. */
  lemma ArpArrives(vni: nat, dst: Mac, src: Mac, a: Arp, i: InterfaceState, bufferSize: nat, now: ArpTable.Time)
    requires vni < 0x100_0000 && |dst| == 6 && |src| == 6 && WholeArp(a)
    requires |ArpDatagram(vni, dst, src, a)| <= bufferSize
    ensures var f, p := Received(ArpDatagram(vni, dst, src, a), bufferSize), ReadArp(a);
      && Delivered(i, f) == []
      && f.Some? && AfterFrame(i, f, ReadArp, now) ==
         (if i.vni == vni then i.(arp := AfterPacket(i.arp, i.mac, i.addresses, i.macs, p, now)) else i)
      && (if Delivery.Reached(i, f) then Replies(i, f.value, ReadArp) else []) ==
         if i.vni == vni then RepliesTo(i.mac, i.addresses, i.macs, p) else []
  {
    ArpRoundTrip(vni, dst, src, a, bufferSize);
    var p := Parsed([EthernetKind, ArpKind], dst, src, Some(a), None, None);
    TwoKinds(i, p, a, now);
  }

  lemma TwoKinds(i: InterfaceState, p: Parsed, a: Arp, now: ArpTable.Time)
    requires p.decoded == [EthernetKind, ArpKind] && p.arp == Some(a)
    ensures TunWrites(i.mac, p, p.decoded) == []
    ensures AfterKinds(i, p, p.decoded, ReadArp, now) ==
            i.(arp := AfterPacket(i.arp, i.mac, i.addresses, i.macs, ReadArp(a), now))
    ensures RepliesOver(i.mac, i.addresses, i.macs, p, p.decoded, ReadArp) == RepliesTo(i.mac, i.addresses, i.macs, ReadArp(a))
  {
    var one: seq<Kind> := [EthernetKind];
    assert p.decoded[..1] == one && one[..0] == [];
    assert Packets(p, one) == [];
    assert AfterKinds(i, p, one, ReadArp, now) == i;
    assert RepliesOver(i.mac, i.addresses, i.macs, p, one, ReadArp) == [];
  }

  // ---------------------------------------------------------------- an exchange on the wire

  /** The largest datagram of an ARP layer with six-byte hardware addresses: IPv6 addresses do not need padding. */
  const ARP_DATAGRAM: nat := 74

  lemma ArpDatagramFits(vni: nat, dst: Mac, src: Mac, a: Arp)
    requires vni < 0x100_0000 && |dst| == 6 && |src| == 6 && WholeArp(a)
    requires |a.srcHw| == 6 && |a.srcProt| <= 16
    ensures |ArpDatagram(vni, dst, src, a)| <= ARP_DATAGRAM
  {
    SerializeArp(vni, dst, src, a);
    DecodeHeaders(vni, dst, src, ETHERTYPE_ARP, ArpBytes(a));
  }

  /** The interface knows the binding. */
  ghost predicate Knows(i: InterfaceState, a: Addr, mac: Mac) {
    ArpTable.Find(i.arp, a).Some? && ArpTable.Find(i.arp, a).value.mac == mac
  }

  /** Two interfaces on one VNI, of which one can ask for an address that the other carries, and be answered. */
  ghost predicate CanAsk(asker: InterfaceState, owner: InterfaceState, target: Addr) {
    && asker.vni == owner.vni < 0x100_0000 && |asker.mac| == |owner.mac| == 6
    && ArpTable.Valid(asker.arp) && ArpTable.Valid(owner.arp)
    && (exists p :: p in asker.addresses && p.addr.V4? == target.V4?)
    && (exists p :: p in owner.addresses && p.addr == target)
    && (exists e :: e in owner.macs && (e.mac == asker.mac || e.mac == CONTROLLER))
  }

  /** The request as the asker sends it, and what it reads as. */
  lemma RequestMade(asker: InterfaceState, owner: InterfaceState, target: Addr) returns (source: Addr)
    requires CanAsk(asker, owner, target)
    ensures SourceAddress(asker.addresses, target) == Some(source)
    ensures var a := RequestLayer(asker.mac, Some(source), target);
      && WholeArp(a) && |a.srcProt| <= 16 && FromSlice(a.srcProt) == Some(source) && FromSlice(a.dstProt) == Some(target)
      && ReadArp(a) == RequestFor(asker.mac, source, target)
  {
    RequestShape(asker.addresses, target);
    RequestIsWholeIff(asker.mac, asker.addresses, target);
    source := SourceAddress(asker.addresses, target).value;
    SliceRoundTrip(source);
    SliceRoundTrip(target);
  }

  /** The asker's request, serialized, sent and received, is answered and teaches the owner who asked. */
  lemma RequestOnTheWire(asker: InterfaceState, owner: InterfaceState, target: Addr, bufferSize: nat, now: ArpTable.Time)
    returns (source: Addr)
    requires CanAsk(asker, owner, target) && ARP_DATAGRAM <= bufferSize
    ensures SourceAddress(asker.addresses, target) == Some(source)
    ensures var a := RequestLayer(asker.mac, Some(source), target);
      && WholeArp(a) && FromSlice(a.srcProt) == Some(source) && FromSlice(a.dstProt) == Some(target)
      && var f := Received(ArpDatagram(asker.vni, BROADCAST, asker.mac, a), bufferSize);
      && Delivery.Reached(owner, f)
      && Knows(AfterFrame(owner, f, ReadArp, now), source, asker.mac)
      && Replies(owner, f.value, ReadArp) != []
      && forall r :: r in Replies(owner, f.value, ReadArp) ==> r == ReadArp(ReplyLayer(a, owner.mac))
  {
    source := RequestMade(asker, owner, target);
    var a := RequestLayer(asker.mac, Some(source), target);
    var p := RequestFor(asker.mac, source, target);
    ArpDatagramFits(asker.vni, BROADCAST, asker.mac, a);
    ArpArrives(asker.vni, BROADCAST, asker.mac, a, owner, bufferSize, now);
    Exchange.AcceptsIffAnswerable(owner.addresses, owner.macs, p);
    Exchange.AfterPacketLearns(owner.arp, owner.mac, owner.addresses, owner.macs, p, now, source);
    ReplyReads(a, owner.mac);
  }

  /** And the owner's reply teaches the asker whom to send to. */
  lemma ReplyOnTheWire(asker: InterfaceState, owner: InterfaceState, target: Addr, a: Arp, bufferSize: nat, now: ArpTable.Time)
    requires CanAsk(asker, owner, target) && ARP_DATAGRAM <= bufferSize
    requires WholeArp(a) && a.srcHw == asker.mac && a.addrType == ETHERNET_LINK
    requires FromSlice(a.srcProt).Some? && FromSlice(a.dstProt) == Some(target)
    ensures var reply := ReplyLayer(a, owner.mac);
      && WholeArp(reply)
      && var f := Received(ArpDatagram(owner.vni, asker.mac, owner.mac, reply), bufferSize);
      && Knows(AfterFrame(asker, f, ReadArp, now), target, owner.mac)
  {
    var reply := ReplyLayer(a, owner.mac);
    ReplyIsWhole(a, owner.mac);
    ReplyReads(a, owner.mac);
    AddressRoundTrip(a.dstProt);
    ArpDatagramFits(owner.vni, asker.mac, owner.mac, reply);
    ArpArrives(owner.vni, asker.mac, owner.mac, reply, asker, bufferSize, now);
    Exchange.AfterPacketLearns(asker.arp, asker.mac, asker.addresses, asker.macs, ReadArp(reply), now, target);
  }
}
