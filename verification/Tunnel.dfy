/** Encapsulation. Outbound layers are serialized into one buffer, from the last layer to the first, and sent as the
    payload of a UDP datagram; inbound datagrams are decoded layer by layer. The VXLAN header is that of section 5 of
    RFC 7348, the ARP layer that of RFC 826. */
module Tunnel {
  import opened Bits
  import opened Parsing
  import opened Sequences
  import opened Wire

  /** The smallest Ethernet frame the serializer produces; shorter ones are padded with zeros. */
  const MIN_FRAME: nat := 60

  /** Datagrams up to this size are not even decoded. */
  const MIN_DATAGRAM: nat := 38

  /** Outer IPv4, UDP and VXLAN headers around an Ethernet header, as the program reckons them. */
  const OVERHEAD: nat := 50

  datatype Layer =
    | VxlanLayer(vni: nat)
    | EthernetLayer(dst: Bytes, src: Bytes, etherType: nat)
    | IPv4Layer(ip: IPv4)
    | ArpLayer(arp: Arp)
    | MasqueradeLayer(data: Bytes)

  /** Fields that fit their place in the header, as their machine types guarantee. */
  predicate Typed(l: Layer) {
    match l
    case VxlanLayer(vni) => vni < 0x1_0000_0000
    case EthernetLayer(_, _, etherType) => etherType < 0x1_0000
    case IPv4Layer(ip) => Encodable(ip)
    case ArpLayer(a) => a.addrType < 0x1_0000 && a.protocol < 0x1_0000 && a.operation < 0x1_0000
    case MasqueradeLayer(_) => true
  }

  // ---------------------------------------------------------------- one layer

  function VxlanHeader(vni: nat): Bytes
    requires vni < 0x100_0000
  {
    [0x08, 0, 0, 0, vni / 0x1_0000, vni / 0x100 % 0x100, vni % 0x100, 0]
  }

  function EthernetHeader(dst: Bytes, src: Bytes, etherType: nat): Bytes
    requires etherType < 0x1_0000
  {
    dst + src + Put16(etherType)
  }

  function Padded(frame: Bytes): Bytes {
    if |frame| < MIN_FRAME then frame + Zeros(MIN_FRAME - |frame|) else frame
  }

  function ArpFixed(a: Arp): Bytes
    requires Typed(ArpLayer(a))
  {
    Put16(a.addrType) + Put16(a.protocol) + [|a.srcHw| % 0x100, |a.srcProt| % 0x100] + Put16(a.operation)
  }

  function ArpBytes(a: Arp): Bytes
    requires Typed(ArpLayer(a))
  {
    ArpFixed(a) + a.srcHw + a.srcProt + a.dstHw + a.dstProt
  }

  /** One layer's effect on the buffer, and whether it succeeded. A layer that fails may leave space behind. */
  function Step(l: Layer, buffer: Bytes): (bool, Bytes)
    requires Typed(l)
  {
    match l
    case VxlanLayer(vni) =>
      if vni < 0x100_0000 then (true, VxlanHeader(vni) + buffer) else (false, [0x08] + Zeros(7) + buffer)
    case EthernetLayer(dst, src, etherType) =>
      if |dst| == 6 && |src| == 6 then (true, Padded(EthernetHeader(dst, src, etherType) + buffer)) else (false, buffer)
    case IPv4Layer(ip) => (true, EncodeIPv4(ip, buffer))
    case ArpLayer(a) =>
      if |a.srcHw| == |a.dstHw| && |a.srcProt| == |a.dstProt| then (true, ArpBytes(a) + buffer)
      else (false, Zeros(8 + |a.srcHw| + |a.srcProt| + |a.dstHw| + |a.dstProt|) + buffer)
    case MasqueradeLayer(data) => if data != [] then (true, data + buffer) else (false, buffer)
  }

  /** Layers from the last to the first, until one fails; the buffer is what has been written so far. */
  function Serialize(layers: seq<Layer>, buffer: Bytes): (bool, Bytes)
    requires forall l :: l in layers ==> Typed(l)
  {
    if layers == [] then (true, buffer)
    else
      var n := |layers| - 1;
      var (ok, written) := Step(layers[n], buffer);
      if ok then Serialize(layers[..n], written) else (false, written)
  }

  // ---------------------------------------------------------------- the buffer

  lemma CopiedOne(data: Bytes, was: Bytes, k: nat)
    requires k < |data| <= |was|
    ensures (data[..k] + was[k..])[k := data[k]] == data[..k + 1] + was[k + 1..]
  {
  }

  class SerializeBuffer {
    var bytes: Bytes

    constructor ()
      ensures bytes == []
    {
      bytes := [];
    }

    /** Make room for n bytes in front; a fresh buffer's room reads as zeros. */
    method PrependBytes(n: nat)
      modifies this
      ensures bytes == Zeros(n) + old(bytes)
    {
      bytes := Zeros(n) + bytes;
    }

    /** copy: overwrite the first bytes. */
    method Copy(data: Bytes)
      requires |data| <= |bytes|
      modifies this
      ensures bytes == data + old(bytes)[|data|..]
    {
      var k := 0;
      while k < |data|
        invariant 0 <= k <= |data| <= |bytes| == |old(bytes)|
        invariant bytes == data[..k] + old(bytes)[k..]
      {
        CopiedOne(data, old(bytes), k);
        bytes := bytes[k := data[k]];
        k := k + 1;
      }
      assert data[..k] == data;
    }

    /** Masquerade.SerializeTo: refuse an empty payload, otherwise prepend space and copy the payload into it. */
    method SerializeMasquerade(data: Bytes) returns (ok: bool)
      modifies this
      ensures (ok, bytes) == Step(MasqueradeLayer(data), old(bytes))
    {
      var length := |data|;
      if length < 1 {
        return false;
      }
      PrependBytes(length);
      Copy(data);
      return true;
    }

    /** The header layers, which the packet library writes. */
    method SerializeLayer(l: Layer) returns (ok: bool)
      requires Typed(l)
      modifies this
      ensures (ok, bytes) == Step(l, old(bytes))
    {
      if l.MasqueradeLayer? {
        ok := SerializeMasquerade(l.data);
      } else {
        var r := Step(l, bytes);
        ok, bytes := r.0, r.1;
      }
    }
  }

  /** SendLayers: serialize behind a VXLAN header with the interface's VNI. An encoding error is logged, and whatever
      is in the buffer by then is sent all the same. */
  method SendLayers(vni: nat, layersToSend: seq<Layer>) returns (encoded: bool, datagram: Bytes)
    requires Typed(VxlanLayer(vni))
    requires forall l :: l in layersToSend ==> Typed(l)
    ensures (encoded, datagram) == Serialize([VxlanLayer(vni)] + layersToSend, [])
  {
    var buf := new SerializeBuffer();
    var layers := [VxlanLayer(vni)] + layersToSend;
    encoded := true;
    var k := |layers|;
    assert layers[..k] == layers;
    while k > 0 && encoded
      invariant 0 <= k <= |layers|
      invariant if encoded then Serialize(layers[..k], buf.bytes) == Serialize(layers, [])
                else Serialize(layers, []) == (false, buf.bytes)
      decreases k
    {
      assert layers[..k][..k - 1] == layers[..k - 1];
      encoded := buf.SerializeLayer(layers[k - 1]);
      k := k - 1;
    }
    datagram := buf.bytes;
  }

  // ---------------------------------------------------------------- decoding

  /** The kinds of layer that a listener registers with its parser, and an interface with the one for IPv4. */
  const LISTENED: set<Kind> := {EthernetKind, ArpKind, IPv4Kind, IPv6Kind}
  const FORWARDED: set<Kind> := {IPv4Kind}

  /** A VNI, and what was parsed behind the VXLAN header. */
  datatype Frame = Frame(vni: nat, parsed: Parsed)

  function Get24(a: Byte, b: Byte, c: Byte): nat {
    Get16(a, b) * 0x100 + c
  }

  function DecodeFrame(data: Bytes): Option<Frame>
    requires |data| > 8
  {
    var p := Parse(LISTENED, EthernetKind, data[8..], NOTHING);
    if p.Some? then Some(Frame(Get24(data[4], data[5], data[6]), p.value)) else None
  }

  /** What a listener makes of a datagram read into a buffer of the given size. */
  function Received(datagram: Bytes, bufferSize: nat): Option<Frame> {
    var packet := if |datagram| <= bufferSize then datagram else datagram[..bufferSize];
    if |packet| > MIN_DATAGRAM then DecodeFrame(packet) else None
  }

  lemma ReceivedIsComplete(datagram: Bytes, bufferSize: nat)
    requires Received(datagram, bufferSize).Some?
    ensures Complete(Received(datagram, bufferSize).value.parsed)
  {
    var packet := if |datagram| <= bufferSize then datagram else datagram[..bufferSize];
    ParseExtends(LISTENED, EthernetKind, packet[8..], NOTHING);
  }

  /** Datagrams of at most 38 bytes are ignored; longer ones that hold an Ethernet frame of none of the types that the
      listener knows are not. */
  lemma ShortIsIgnored(datagram: Bytes, bufferSize: nat)
    requires |datagram| <= bufferSize
    requires |datagram| >= 22 ==> Get16(datagram[20], datagram[21]) !in {0x0800, 0x0806, 0x86DD, 0x6558}
    ensures Received(datagram, bufferSize).Some? <==> |datagram| > 38
  {
    if |datagram| > 38 {
      var inner := datagram[8..];
      assert inner[12] == datagram[20] && inner[13] == datagram[21];
    }
  }

  /** The IP packet that a kind of layer stands for when the layers are gone through: that of the variable, which holds the
      last one decoded. */
  function PacketOf(p: Parsed, kind: Kind): seq<Bytes> {
    if kind == IPv4Kind && p.ip4.Some? then [p.ip4.value.contents + p.ip4.value.payload]
    else if kind == IPv6Kind && p.ip6.Some? then [p.ip6.value.contents + p.ip6.value.payload]
    else []
  }

  function Packets(p: Parsed, kinds: seq<Kind>): seq<Bytes> {
    if kinds == [] then [] else var n := |kinds| - 1; Packets(p, kinds[..n]) + PacketOf(p, kinds[n])
  }

  // ---------------------------------------------------------------- round trips

  /** The layers of an outbound IPv4 packet behind the VXLAN header. */
  function DataLayers(vni: nat, dst: Bytes, src: Bytes, ip: IPv4): seq<Layer> {
    [VxlanLayer(vni), EthernetLayer(dst, src, ETHERTYPE_IPV4), IPv4Layer(ip), MasqueradeLayer(ip.payload)]
  }

  function FrameSize(n: nat): nat {
    if 14 + n < MIN_FRAME then MIN_FRAME else 14 + n
  }

  lemma SerializeData(vni: nat, dst: Bytes, src: Bytes, ip: IPv4)
    requires vni < 0x100_0000 && |dst| == 6 && |src| == 6 && Encodable(ip) && ip.payload != []
    ensures Serialize(DataLayers(vni, dst, src, ip), []) ==
            (true, VxlanHeader(vni) + Padded(EthernetHeader(dst, src, ETHERTYPE_IPV4) + EncodeIPv4(ip, ip.payload)))
  {
    var layers := DataLayers(vni, dst, src, ip);
    var l3, l2, l1 := layers[..3], layers[..2], layers[..1];
    assert ip.payload + [] == ip.payload;
    assert l3[..2] == l2 && l2[..1] == l1 && l1[..0] == [];
    var payload := ip.payload;
    var packet := EncodeIPv4(ip, payload);
    var frame := Padded(EthernetHeader(dst, src, ETHERTYPE_IPV4) + packet);
    assert Step(layers[3], []) == (true, payload);
    assert Step(l3[2], payload) == (true, packet);
    assert Step(l2[1], packet) == (true, frame);
    assert Step(l1[0], frame) == (true, VxlanHeader(vni) + frame);
    calc {
      Serialize(layers, []);
      Serialize(l3, payload);
      Serialize(l2, packet);
      Serialize(l1, frame);
      (true, VxlanHeader(vni) + frame);
    }
  }

  lemma FrameSlices(v: Bytes, d: Bytes, s: Bytes, t: Bytes, rest: Bytes)
    requires |v| == 8 && |d| == 6 && |s| == 6 && |t| == 2
    ensures var data := v + (d + s + t + rest);
      && data[..8] == v && data[8..14] == d && data[14..20] == s && data[20..22] == t && data[22..] == rest
  {
  }

  /** A datagram whose VXLAN and Ethernet headers read so, and are followed by this. */
  ghost predicate Carries(data: Bytes, vni: nat, dst: Bytes, src: Bytes, etherType: nat, contents: Bytes) {
    && |data| > MIN_DATAGRAM
    && Get16(data[20], data[21]) == etherType
    && data[22..] == contents
    && Get24(data[4], data[5], data[6]) == vni
    && data[8..14] == dst && data[14..20] == src
  }

  /** Decoding undoes the VXLAN and Ethernet headers, and hands the body over with its padding. */
  lemma DecodeHeaders(vni: nat, dst: Bytes, src: Bytes, etherType: nat, body: Bytes)
    requires vni < 0x100_0000 && |dst| == 6 && |src| == 6 && etherType < 0x1_0000
    ensures var data := VxlanHeader(vni) + Padded(EthernetHeader(dst, src, etherType) + body);
      |data| == 8 + FrameSize(|body|) && Carries(data, vni, dst, src, etherType, body + Padding(|body|))
  {
    var v, t := VxlanHeader(vni), Put16(etherType);
    var data := v + Padded(EthernetHeader(dst, src, etherType) + body);
    assert data == v + (dst + src + t + (body + Padding(|body|)));
    FrameSlices(v, dst, src, t, body + Padding(|body|));
    assert data[20] == data[20..22][0] && data[21] == data[20..22][1];
    assert data[4] == data[..8][4] && data[5] == data[..8][5] && data[6] == data[..8][6];
    VniBytes(vni);
    GetPut16(etherType);
  }

  /** The VXLAN header has the flag that the VNI is valid, and no other, the VNI in bytes 4 to 6, most significant first, and
      its reserved bytes zero. */
  lemma VxlanHeaderIs(vni: nat)
    requires vni < 0x100_0000
    ensures var h := VxlanHeader(vni);
      && |h| == 8
      && h[0] == 0x08 && h[1] == h[2] == h[3] == h[7] == 0
      && (h[4] as int) * 0x1_0000 + (h[5] as int) * 0x100 + h[6] as int == vni
  {
    VniBytes(vni);
  }

  /** A datagram is a VXLAN header, the hardware addresses of destination and source, the type of what follows, the body,
      and zeros up to the smallest frame. */
  lemma DatagramIs(vni: nat, dst: Bytes, src: Bytes, etherType: nat, body: Bytes)
    requires vni < 0x100_0000 && |dst| == 6 && |src| == 6 && etherType < 0x1_0000
    ensures VxlanHeader(vni) + Padded(EthernetHeader(dst, src, etherType) + body) ==
            VxlanHeader(vni) + dst + src + [etherType / 0x100, etherType % 0x100] + body +
            seq(if |body| < 46 then 46 - |body| else 0, _ => 0)
  {
    assert EthernetHeader(dst, src, etherType) == dst + src + [etherType / 0x100, etherType % 0x100];
    if |body| < 46 {
      assert Zeros(60 - 14 - |body|) == seq(46 - |body|, _ => 0);
    } else {
      assert seq(0, _ => 0) == Zeros(0);
    }
  }

  lemma VniBytes(vni: nat)
    requires vni < 0x100_0000
    ensures Get24(vni / 0x1_0000, vni / 0x100 % 0x100, vni % 0x100) == vni
  {
  }

  function Padding(n: nat): Bytes {
    if 14 + n < MIN_FRAME then Zeros(MIN_FRAME - 14 - n) else []
  }

  /** What a listener parses behind an Ethernet header. */
  function ParseBehind(dst: Bytes, src: Bytes, etherType: nat, contents: Bytes): Option<Parsed> {
    var p, next := Parsed([EthernetKind], dst, src, None, None, None), NextOfEtherType(etherType);
    if contents == [] || next !in LISTENED then Some(p) else Parse(LISTENED, next, contents, p)
  }

  /** A datagram that the buffer holds is received as what its headers say and what is parsed behind them. */
  lemma ReceivedFrame(data: Bytes, vni: nat, dst: Bytes, src: Bytes, etherType: nat, contents: Bytes, bufferSize: nat)
    requires Carries(data, vni, dst, src, etherType, contents) && |data| <= bufferSize
    ensures var p := ParseBehind(dst, src, etherType, contents);
      Received(data, bufferSize) == if p.Some? then Some(Frame(vni, p.value)) else None
  {
    var inner := data[8..];
    assert inner[..6] == data[8..14] && inner[6..12] == data[14..20] && inner[14..] == data[22..];
    assert inner[12] == data[20] && inner[13] == data[21];
    assert [] + [EthernetKind] == [EthernetKind];
  }

  // ---------------------------------------------------------------- a packet through the tunnel

  /** The header that the packet reader of an interface ends up with, and works with from then on: the innermost one. */
  function Forwarded(packet: Bytes): (ip: Option<IPv4>)
    ensures ip.Some? ==> Encodable(ip.value)
  {
    var p := Parse(FORWARDED, IPv4Kind, packet, NOTHING);
    if p.None? then None
    else
      InnermostIPv4(packet, NOTHING);
      p.value.ip4
  }

  /** The datagram sent for a packet, if its headers parse. */
  function Outbound(vni: nat, dst: Bytes, src: Bytes, packet: Bytes): Option<Bytes>
    requires vni < 0x1_0000_0000
  {
    var ip := Forwarded(packet);
    if ip.None? then None else Some(Serialize(DataLayers(vni, dst, src, ip.value), []).1)
  }

  /** What a listener makes of it. */
  function RoundTrip(vni: nat, dst: Bytes, src: Bytes, packet: Bytes, bufferSize: nat): Option<Frame>
    requires vni < 0x1_0000_0000
  {
    var datagram := Outbound(vni, dst, src, packet);
    if datagram.None? then None else Received(datagram.value, bufferSize)
  }

  /** What comes of sending a decoded header with its payload. */
  lemma SentIPv4(vni: nat, dst: Bytes, src: Bytes, ip: IPv4, bufferSize: nat)
    requires vni < 0x100_0000 && |dst| == 6 && |src| == 6 && Encodable(ip) && ip.payload != []
    requires 8 + FrameSize(20 + |ip.options| + |ip.payload|) <= bufferSize
    ensures var (encoded, datagram) := Serialize(DataLayers(vni, dst, src, ip), []);
      var e := EncodeIPv4(ip, ip.payload);
      var p := ParseBehind(dst, src, ETHERTYPE_IPV4, e + Padding(|e|));
      && encoded && |datagram| == 8 + FrameSize(|e|)
      && Received(datagram, bufferSize) == if p.Some? then Some(Frame(vni, p.value)) else None
  {
    var e := EncodeIPv4(ip, ip.payload);
    EncodedLength(ip);
    SerializeData(vni, dst, src, ip);
    DecodeHeaders(vni, dst, src, ETHERTYPE_IPV4, e);
    var data := VxlanHeader(vni) + Padded(EthernetHeader(dst, src, ETHERTYPE_IPV4) + e);
    ReceivedFrame(data, vni, dst, src, ETHERTYPE_IPV4, e + Padding(|e|), bufferSize);
  }

  /** The listener's parser behind the Ethernet header of a consistent packet: the packet's header, and what follows it. */
  lemma ParsedPacket(dst: Bytes, src: Bytes, packet: Bytes, ip: IPv4)
    requires Consistent(packet) && DecodeIPv4(packet) == Some(ip)
    ensures ip.contents + ip.payload == packet && ip.payload != []
    ensures var q := Parsed([EthernetKind, IPv4Kind], dst, src, None, Some(ip), None);
      ParseBehind(dst, src, ETHERTYPE_IPV4, packet + Padding(|packet|)) ==
      if NextOfIPv4(ip) in LISTENED then Parse(LISTENED, NextOfIPv4(ip), ip.payload, q) else Some(q)
  {
    DecodePadded(packet, Padding(|packet|));
    assert [EthernetKind] + [IPv4Kind] == [EthernetKind, IPv4Kind];
    assert packet + Padding(|packet|) != [];
  }

  /** The outer IPv4 datagram (20 bytes of IPv4 and 8 of UDP around the VXLAN message) fits the listener's maximum
      exactly when the packet is at most that maximum less 50 bytes and the maximum admits a padded frame. */
  lemma OuterDatagramFitsIff(packetLength: nat, maxMessageSize: nat)
    ensures 20 + 8 + 8 + FrameSize(packetLength) <= maxMessageSize <==>
            packetLength + OVERHEAD <= maxMessageSize && 96 <= maxMessageSize
  {
  }

  /** A payload-less packet never leaves: the masquerade layer refuses, and an empty datagram is sent, which a
      listener ignores. */
  lemma EmptyPayloadSendsNothing(vni: nat, dst: Bytes, src: Bytes, ip: IPv4, bufferSize: nat)
    requires Typed(VxlanLayer(vni)) && Encodable(ip) && ip.payload == []
    ensures Serialize(DataLayers(vni, dst, src, ip), []) == (false, [])
    ensures Received([], bufferSize).None?
  {
    var layers := DataLayers(vni, dst, src, ip);
    assert Step(layers[3], []) == (false, []);
  }

  /** An ARP layer as GetMacFor and HandleARP build it: Ethernet and protocol addresses of the sizes announced. */
  predicate WholeArp(a: Arp) {
    && Typed(ArpLayer(a))
    && |a.srcHw| == |a.dstHw| < 0x100 && |a.srcProt| == |a.dstProt| < 0x100
  }

  lemma ArpSlices(fixed: Bytes, p: Bytes, q: Bytes, r: Bytes, t: Bytes, padding: Bytes)
    requires |fixed| == 8
    ensures var data := fixed + p + q + r + t + padding;
      && data[..8] == fixed
      && data[8..8 + |p|] == p
      && data[8 + |p|..8 + |p| + |q|] == q
      && data[8 + |p| + |q|..8 + |p| + |q| + |r|] == r
      && data[8 + |p| + |q| + |r|..8 + |p| + |q| + |r| + |t|] == t
  {
  }

  lemma ArpFixedFields(a: Arp)
    requires WholeArp(a)
    ensures var f := ArpFixed(a);
      && |f| == 8 && Get16(f[0], f[1]) == a.addrType && Get16(f[2], f[3]) == a.protocol
      && f[4] == |a.srcHw| && f[5] == |a.srcProt| && Get16(f[6], f[7]) == a.operation
  {
  }

  lemma DecodeArpPadded(a: Arp, padding: Bytes)
    requires WholeArp(a)
    ensures DecodeArp(ArpBytes(a) + padding) == Some(a)
  {
    var f, data := ArpFixed(a), ArpBytes(a) + padding;
    ArpFixedFields(a);
    ArpSlices(f, a.srcHw, a.srcProt, a.dstHw, a.dstProt, padding);
    assert data == f + a.srcHw + a.srcProt + a.dstHw + a.dstProt + padding;
    forall k | 0 <= k < 8 ensures data[k] == f[k] {
      assert data[k] == data[..8][k];
    }
  }

  function ArpLayers(vni: nat, dst: Bytes, src: Bytes, a: Arp): seq<Layer> {
    [VxlanLayer(vni), EthernetLayer(dst, src, ETHERTYPE_ARP), ArpLayer(a)]
  }

  lemma SerializeArp(vni: nat, dst: Bytes, src: Bytes, a: Arp)
    requires vni < 0x100_0000 && |dst| == 6 && |src| == 6 && WholeArp(a)
    ensures Serialize(ArpLayers(vni, dst, src, a), []) ==
            (true, VxlanHeader(vni) + Padded(EthernetHeader(dst, src, ETHERTYPE_ARP) + ArpBytes(a)))
  {
    var layers := ArpLayers(vni, dst, src, a);
    var l2, l1 := layers[..2], layers[..1];
    assert ArpBytes(a) + [] == ArpBytes(a);
    assert l2[..1] == l1 && l1[..0] == [];
    var frame := Padded(EthernetHeader(dst, src, ETHERTYPE_ARP) + ArpBytes(a));
    assert Step(layers[2], []) == (true, ArpBytes(a));
    assert Step(l2[1], ArpBytes(a)) == (true, frame);
    assert Step(l1[0], frame) == (true, VxlanHeader(vni) + frame);
    calc {
      Serialize(layers, []);
      Serialize(l2, ArpBytes(a));
      Serialize(l1, frame);
      (true, VxlanHeader(vni) + frame);
    }
  }

  lemma ParsedArp(dst: Bytes, src: Bytes, a: Arp)
    requires WholeArp(a)
    ensures ParseBehind(dst, src, ETHERTYPE_ARP, ArpBytes(a) + Padding(|ArpBytes(a)|)) ==
            Some(Parsed([EthernetKind, ArpKind], dst, src, Some(a), None, None))
  {
    DecodeArpPadded(a, Padding(|ArpBytes(a)|));
    assert [EthernetKind] + [ArpKind] == [EthernetKind, ArpKind];
  }

  /** An ARP packet crosses the tunnel unchanged, padding and all. */
  lemma ArpRoundTrip(vni: nat, dst: Bytes, src: Bytes, a: Arp, bufferSize: nat)
    requires vni < 0x100_0000 && |dst| == 6 && |src| == 6 && WholeArp(a)
    ensures var (encoded, datagram) := Serialize(ArpLayers(vni, dst, src, a), []);
      && encoded
      && (|datagram| <= bufferSize ==>
            Received(datagram, bufferSize) == Some(Frame(vni, Parsed([EthernetKind, ArpKind], dst, src, Some(a), None, None))))
  {
    SerializeArp(vni, dst, src, a);
    ParsedArp(dst, src, a);
    DecodeHeaders(vni, dst, src, ETHERTYPE_ARP, ArpBytes(a));
    var data := VxlanHeader(vni) + Padded(EthernetHeader(dst, src, ETHERTYPE_ARP) + ArpBytes(a));
    if |data| <= bufferSize {
      ReceivedFrame(data, vni, dst, src, ETHERTYPE_ARP, ArpBytes(a) + Padding(|ArpBytes(a)|), bufferSize);
    }
  }

  /** An IPv4 packet is sent behind type 0x0800. */
  lemma PacketSentAs(vni: nat, dst: Bytes, src: Bytes, ip: IPv4)
    requires vni < 0x100_0000 && |dst| == 6 && |src| == 6 && Encodable(ip) && ip.payload != []
    ensures Serialize(DataLayers(vni, dst, src, ip), []) ==
            (true, VxlanHeader(vni) + Padded(EthernetHeader(dst, src, 0x0800) + EncodeIPv4(ip, ip.payload)))
  {
    SerializeData(vni, dst, src, ip);
  }

  /** An ARP layer is sent behind type 0x0806, with its link type, protocol, sizes, operation and addresses one after
      another. */
  lemma ArpSentAs(vni: nat, dst: Bytes, src: Bytes, a: Arp)
    requires vni < 0x100_0000 && |dst| == 6 && |src| == 6 && WholeArp(a)
    ensures Serialize(ArpLayers(vni, dst, src, a), []) ==
            (true, VxlanHeader(vni) + Padded(EthernetHeader(dst, src, 0x0806) + ArpBytes(a)))
    ensures ArpBytes(a) == [a.addrType / 0x100, a.addrType % 0x100, a.protocol / 0x100, a.protocol % 0x100] +
                           [|a.srcHw|, |a.srcProt|, a.operation / 0x100, a.operation % 0x100] +
                           a.srcHw + a.srcProt + a.dstHw + a.dstProt
  {
    SerializeArp(vni, dst, src, a);
  }
}
