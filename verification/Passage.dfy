/** Which packets pass through the tunnel. The parsers at both ends go on into a payload that is an IP packet itself: the
    sender's into IPv4, the listener's into IPv6 too. So a packet comes out as it went in, and alone, exactly when its
    payload is nothing that they would go on with. */
module Passage {
  import opened Bits
  import opened Parsing
  import opened Sequences
  import opened Tunnel
  import opened Wire

  /** The frame has this VNI and these addresses, and this packet in it and no other. */
  predicate Holds(f: Option<Frame>, vni: nat, dst: Bytes, src: Bytes, packet: Bytes) {
    && f.Some? && f.value.vni == vni && f.value.parsed.dst == dst && f.value.parsed.src == src
    && Packets(f.value.parsed, f.value.parsed.decoded) == [packet]
  }

  /** The payload is not an IP packet that a parser would go on with: it is a piece of one, or the protocol is neither IPv4
      (4 or 94) nor IPv6 (41). */
  predicate Plain(packet: Bytes)
    requires Consistent(packet)
  {
    IsFragment(Get16(packet[6], packet[7])) || (packet[9] != 4 && packet[9] != 94 && packet[9] != 41)
  }

  /** Of a whole packet the second of the flags and offset bytes is zero, and the first has no bit set but the two upper
      ones, of which one is reserved and one forbids fragmenting. */
  lemma PlainIff(packet: Bytes)
    requires Consistent(packet)
    ensures Plain(packet) <==>
            packet[7] != 0 || packet[6] !in {0, 0x40, 0x80, 0xC0} || packet[9] !in {4, 41, 94}
  {
  }

  // ---------------------------------------------------------------- what is sent

  /** Whatever the variables hold before, the innermost header is the same. */
  lemma {:induction false} InnermostOnly(data: Bytes, p: Parsed, q: Parsed)
    ensures Parse(FORWARDED, IPv4Kind, data, p).Some? <==> Parse(FORWARDED, IPv4Kind, data, q).Some?
    ensures Parse(FORWARDED, IPv4Kind, data, p).Some? ==>
              Parse(FORWARDED, IPv4Kind, data, p).value.ip4 == Parse(FORWARDED, IPv4Kind, data, q).value.ip4
    decreases |data|
  {
    var r, t := DecodeLayer(IPv4Kind, data, p), DecodeLayer(IPv4Kind, data, q);
    if r.Some? && r.value.payload != [] && r.value.next in FORWARDED {
      InnermostOnly(r.value.payload, r.value.parsed, t.value.parsed);
    }
  }

  lemma ForwardedNext(packet: Bytes, ip: IPv4)
    requires DecodeIPv4(packet) == Some(ip) && ip.payload != []
    ensures Forwarded(packet) == if NextOfIPv4(ip) == IPv4Kind then Forwarded(ip.payload) else Some(ip)
  {
    var r := DecodeLayer(IPv4Kind, packet, NOTHING).value;
    if NextOfIPv4(ip) == IPv4Kind {
      InnermostOnly(ip.payload, r.parsed, NOTHING);
    }
  }

  /** The outer header is lost: an unfragmented IPv4 packet that carries an IPv4 packet is sent exactly as its payload would
      be, destination and all, or dropped where that would be. */
  lemma OuterIsLost(vni: nat, dst: Bytes, src: Bytes, packet: Bytes, ip: IPv4)
    requires vni < 0x1_0000_0000 && Consistent(packet) && DecodeIPv4(packet) == Some(ip)
    requires !Plain(packet) && packet[9] != 41
    ensures Forwarded(packet) == Forwarded(ip.payload)
    ensures Outbound(vni, dst, src, packet) == Outbound(vni, dst, src, ip.payload)
  {
    ParsedPacket(dst, src, packet, ip);
    ForwardedNext(packet, ip);
  }

  // ---------------------------------------------------------------- what is received

  /** A consistent packet, if its own header is the one forwarded: the listener parses what is serialized from it. */
  lemma ReceivedPacket(vni: nat, dst: Bytes, src: Bytes, packet: Bytes, ip: IPv4, bufferSize: nat)
    requires vni < 0x100_0000 && |dst| == 6 && |src| == 6 && 8 + FrameSize(|packet|) <= bufferSize
    requires Consistent(packet) && DecodeIPv4(packet) == Some(ip) && NextOfIPv4(ip) != IPv4Kind
    ensures Encodable(ip)
    ensures var e := EncodeIPv4(ip, ip.payload);
      var p := ParseBehind(dst, src, ETHERTYPE_IPV4, e + Padding(|e|));
      && Consistent(e) && DecodeIPv4(e) == Some(ip.(contents := e[..HeaderLength(e)]))
      && RoundTrip(vni, dst, src, packet, bufferSize) == if p.Some? then Some(Frame(vni, p.value)) else None
  {
    ParsedPacket(dst, src, packet, ip);
    ForwardedNext(packet, ip);
    DecodePadded(packet, []);
    EncodedIsExact(packet, ip);
    IPv4Shortens(packet);
    SentIPv4(vni, dst, src, ip, bufferSize);
  }

  /** A plain packet whose options parse arrives as it is serialized. */
  lemma PlainArrives(vni: nat, dst: Bytes, src: Bytes, packet: Bytes, ip: IPv4, bufferSize: nat)
    requires vni < 0x100_0000 && |dst| == 6 && |src| == 6 && 8 + FrameSize(|packet|) <= bufferSize
    requires Consistent(packet) && DecodeIPv4(packet) == Some(ip) && Plain(packet)
    ensures Holds(RoundTrip(vni, dst, src, packet, bufferSize), vni, dst, src, EncodeIPv4(ip, ip.payload))
  {
    var e := EncodeIPv4(ip, ip.payload);
    ReceivedPacket(vni, dst, src, packet, ip, bufferSize);
    var again := DecodeIPv4(e).value;
    ParsedPacket(dst, src, e, again);
    TwoKinds(Parsed([EthernetKind, IPv4Kind], dst, src, None, Some(again), None));
  }

  lemma TwoKinds(p: Parsed)
    requires p.decoded == [EthernetKind, IPv4Kind] && p.ip4.Some?
    ensures Packets(p, p.decoded) == [p.ip4.value.contents + p.ip4.value.payload]
  {
    assert p.decoded[..1] == [EthernetKind] && p.decoded[..1][..0] == [];
    assert Packets(p, [EthernetKind]) == [];
  }

  // ---------------------------------------------------------------- how much is received

  lemma {:induction false} PacketsWithin(p: Parsed, kinds: seq<Kind>, n: nat)
    requires Within(p, n)
    ensures forall x :: x in Packets(p, kinds) ==> |x| <= n
  {
    if kinds != [] {
      PacketsWithin(p, kinds[..|kinds| - 1], n);
    }
  }

  /** Each IP layer gone through hands over one packet. */
  lemma {:induction false} PacketsGrow(p: Parsed, kinds: seq<Kind>, m: nat)
    requires m <= |kinds|
    ensures |Packets(p, kinds[..m])| <= |Packets(p, kinds)|
  {
    if m == |kinds| {
      assert kinds[..m] == kinds;
    } else {
      var n := |kinds| - 1;
      PacketsGrow(p, kinds[..n], m);
      assert kinds[..n][..m] == kinds[..m];
    }
  }

  lemma ThreeKinds(p: Parsed)
    requires Complete(p) && |p.decoded| >= 3 && p.decoded[..3] == [EthernetKind, IPv4Kind, IPv6Kind]
    ensures |Packets(p, p.decoded)| >= 2
  {
    var three := [EthernetKind, IPv4Kind, IPv6Kind];
    assert p.decoded[1] == p.decoded[..3][1] == IPv4Kind && p.decoded[1] in p.decoded;
    assert p.decoded[2] == p.decoded[..3][2] == IPv6Kind && p.decoded[2] in p.decoded;
    assert p.ip4.Some? && p.ip6.Some?;
    assert three[..2] == [EthernetKind, IPv4Kind] && three[..2][..1] == [EthernetKind];
    assert |Packets(p, three[..2])| >= 1;
    PacketsGrow(p, p.decoded, 3);
  }

  /** Behind the header of what was serialized, nothing longer than that is found. */
  lemma BehindWithin(dst: Bytes, src: Bytes, ip: IPv4)
    requires Encodable(ip) && ip.payload != [] && 20 + |ip.options| + |ip.payload| < 0x1_0000
    ensures var e := EncodeIPv4(ip, ip.payload);
      var p := ParseBehind(dst, src, ETHERTYPE_IPV4, e + Padding(|e|));
      p.Some? ==> Within(p.value, |e|)
  {
    var e := EncodeIPv4(ip, ip.payload);
    var data, q := e + Padding(|e|), Parsed([EthernetKind], dst, src, None, None, None);
    EncodedLength(ip);
    SerializedLength(ip, Padding(|e|));
    var r := DecodeLayer(IPv4Kind, data, q);
    if r.Some? {
      IPv4Shortens(data);
      if r.value.payload != [] && r.value.next in LISTENED && Parse(LISTENED, IPv4Kind, data, q).Some? {
        ParseWithin(LISTENED, r.value.next, r.value.payload, r.value.parsed, |e|);
      }
    }
  }

  lemma FrontOf(a: Bytes, b: Bytes, c: Bytes, d: Bytes, padding: Bytes)
    requires |a| == 10
    ensures (a + b + c + d + padding)[2] == a[2] && (a + b + c + d + padding)[3] == a[3]
  {
  }

  /** The total length announced is the true one, whatever follows. */
  lemma SerializedLength(ip: IPv4, padding: Bytes)
    requires Encodable(ip) && 20 + |ip.options| + |ip.payload| < 0x1_0000
    ensures var e := EncodeIPv4(ip, ip.payload); |e + padding| >= 20 && TotalLength(e + padding) == |e|
  {
    var before, rest := Before(ip, |ip.payload|), Rest(ip);
    EncodedLength(ip);
    BeforeLength(ip, |ip.payload|);
    FrontOf(before, Put16(Checksum(Cleared(before, rest))), rest, ip.payload, padding);
  }

  // ---------------------------------------------------------------- IPv4 in IPv4

  /** All that arrives is shorter than what was sent. */
  lemma NestedIsShorter(vni: nat, dst: Bytes, src: Bytes, packet: Bytes, ip: IPv4, bufferSize: nat)
    requires vni < 0x100_0000 && |dst| == 6 && |src| == 6 && 8 + FrameSize(|packet|) <= bufferSize
    requires Consistent(packet) && DecodeIPv4(packet) == Some(ip) && NextOfIPv4(ip) == IPv4Kind
    ensures !Holds(RoundTrip(vni, dst, src, packet, bufferSize), vni, dst, src, packet)
  {
    ParsedPacket(dst, src, packet, ip);
    ForwardedNext(packet, ip);
    var inner := Forwarded(ip.payload);
    if inner.Some? {
      InnermostIPv4(ip.payload, NOTHING);
      var h := inner.value;
      if h.payload == [] {
        EmptyPayloadSendsNothing(vni, dst, src, h, bufferSize);
      } else {
        EncodedLength(h);
        SentIPv4(vni, dst, src, h, bufferSize);
        BehindWithin(dst, src, h);
        var f := RoundTrip(vni, dst, src, packet, bufferSize);
        if f.Some? {
          PacketsWithin(f.value.parsed, f.value.parsed.decoded, |EncodeIPv4(h, h.payload)|);
          assert packet in [packet];
        }
      }
    }
  }

  // ---------------------------------------------------------------- IPv6 in IPv4

  /** Behind the packet there is what the parser made of the packet inside. */
  lemma SixInFour(dst: Bytes, src: Bytes, packet: Bytes, ip: IPv4)
    requires Consistent(packet) && DecodeIPv4(packet) == Some(ip) && NextOfIPv4(ip) == IPv6Kind
    ensures var p := ParseBehind(dst, src, ETHERTYPE_IPV4, packet + Padding(|packet|));
      p.Some? ==> |Packets(p.value, p.value.decoded)| >= 2
  {
    var q := Parsed([EthernetKind, IPv4Kind], dst, src, None, Some(ip), None);
    ParsedPacket(dst, src, packet, ip);
    var p := Parse(LISTENED, IPv6Kind, ip.payload, q);
    if p.Some? {
      ParseExtends(LISTENED, IPv6Kind, ip.payload, q);
      assert q.decoded + [IPv6Kind] == [EthernetKind, IPv4Kind, IPv6Kind];
      ThreeKinds(p.value);
    }
  }

  /** In full, when the packet inside carries no IP packet in its turn. */
  lemma SixBehind(dst: Bytes, src: Bytes, packet: Bytes, ip: IPv4)
    requires Consistent(packet) && DecodeIPv4(packet) == Some(ip) && NextOfIPv4(ip) == IPv6Kind
    ensures var p, inner := ParseBehind(dst, src, ETHERTYPE_IPV4, packet + Padding(|packet|)), DecodeIPv6(ip.payload);
      && (inner.None? ==> p.None?)
      && (inner.Some? && NextOfProtocol(inner.value.next) == OtherKind ==>
            p.Some? && Packets(p.value, p.value.decoded) == [packet, inner.value.contents + inner.value.payload])
  {
    ParsedPacket(dst, src, packet, ip);
    var q, inner := Parsed([EthernetKind, IPv4Kind], dst, src, None, Some(ip), None), DecodeIPv6(ip.payload);
    if inner.Some? && NextOfProtocol(inner.value.next) == OtherKind {
      assert q.decoded + [IPv6Kind] == [EthernetKind, IPv4Kind, IPv6Kind];
      BothPackets(Parsed([EthernetKind, IPv4Kind, IPv6Kind], dst, src, None, Some(ip), inner));
    }
  }

  /** What a frame with that in it holds. */
  ghost predicate Followed(f: Option<Frame>, packet: Bytes, inner: Option<IPv6>) {
    && (inner.None? ==> f.None?)
    && (inner.Some? && NextOfProtocol(inner.value.next) == OtherKind ==>
          f.Some? && Packets(f.value.parsed, f.value.parsed.decoded) == [packet, inner.value.contents + inner.value.payload])
  }

  lemma FrameBehind(f: Option<Frame>, vni: nat, dst: Bytes, src: Bytes, packet: Bytes, ip: IPv4)
    requires Consistent(packet) && DecodeIPv4(packet) == Some(ip) && NextOfIPv4(ip) == IPv6Kind
    requires var p := ParseBehind(dst, src, ETHERTYPE_IPV4, packet + Padding(|packet|));
      f == if p.Some? then Some(Frame(vni, p.value)) else None
    ensures Followed(f, packet, DecodeIPv6(ip.payload))
  {
    SixBehind(dst, src, packet, ip);
  }

  lemma NextOfPacket(packet: Bytes, ip: IPv4)
    requires Consistent(packet) && DecodeIPv4(packet) == Some(ip)
    ensures Plain(packet) <==> NextOfIPv4(ip) == OtherKind
    ensures !Plain(packet) ==> NextOfIPv4(ip) == if packet[9] == 41 then IPv6Kind else IPv4Kind
  {
    DecodePadded(packet, []);
  }

  /** An unfragmented IPv4 packet that carries an IPv6 packet: dropped when that does not decode, and otherwise followed by
      it, here for one that carries no IP packet in its turn. */
  lemma SixInFourArrives(vni: nat, dst: Bytes, src: Bytes, packet: Bytes, ip: IPv4, bufferSize: nat, f: Option<Frame>)
    requires vni < 0x100_0000 && |dst| == 6 && |src| == 6 && 8 + FrameSize(|packet|) <= bufferSize
    requires Consistent(packet) && DecodeIPv4(packet) == Some(ip) && !Plain(packet) && packet[9] == 41
    requires f == RoundTrip(vni, dst, src, packet, bufferSize)
    ensures Encodable(ip) && Followed(f, EncodeIPv4(ip, ip.payload), DecodeIPv6(ip.payload))
  {
    NextOfPacket(packet, ip);
    ReceivedPacket(vni, dst, src, packet, ip, bufferSize);
    FrameBehind(f, vni, dst, src, EncodeIPv4(ip, ip.payload), DecodeIPv4(EncodeIPv4(ip, ip.payload)).value);
  }

  lemma BothPackets(p: Parsed)
    requires p.decoded == [EthernetKind, IPv4Kind, IPv6Kind] && p.ip4.Some? && p.ip6.Some?
    ensures Packets(p, p.decoded) == [p.ip4.value.contents + p.ip4.value.payload, p.ip6.value.contents + p.ip6.value.payload]
  {
    var two := p.(decoded := [EthernetKind, IPv4Kind]);
    assert p.decoded[..2] == two.decoded;
    assert p.decoded[..2][..1] == [EthernetKind] && p.decoded[..2][..1][..0] == [];
    assert Packets(p, [EthernetKind]) == [];
  }

  // ---------------------------------------------------------------- the theorem

  /** The tunnel round trip. A consistent IPv4 packet, sent to a hardware address on a VNI and received into a buffer that
      holds it, arrives as the same VNI, the same Ethernet addresses and the same bytes, and nothing else arrives, exactly
      when its checksum is the computed one, its options are kept, and it is a fragment or its protocol is none of 4, 41
      and 94. */
  lemma PassesIff(vni: nat, dst: Bytes, src: Bytes, packet: Bytes, bufferSize: nat)
    requires vni < 0x100_0000 && |dst| == 6 && |src| == 6 && 8 + FrameSize(|packet|) <= bufferSize
    requires Consistent(packet)
    ensures Holds(RoundTrip(vni, dst, src, packet, bufferSize), vni, dst, src, packet) <==>
            ChecksumExact(packet) && OptionsKept(packet) && Plain(packet)
  {
    DecodePadded(packet, []);
    var decoded := DecodeIPv4(packet);
    if decoded.Some? {
      var ip := decoded.value;
      if Plain(packet) {
        PlainArrives(vni, dst, src, packet, ip, bufferSize);
        ReencodingIsIdentityIff(packet, ip);
        var e := EncodeIPv4(ip, ip.payload);
        assert [e] == [packet] ==> [e][0] == [packet][0];
      } else if packet[9] != 41 {
        NestedIsShorter(vni, dst, src, packet, ip, bufferSize);
      } else {
        ReceivedPacket(vni, dst, src, packet, ip, bufferSize);
        var e := EncodeIPv4(ip, ip.payload);
        SixInFour(dst, src, e, DecodeIPv4(e).value);
      }
    }
  }

  /** Whatever arrives of a packet has the VNI and the addresses it was sent with. */
  lemma Addressed(vni: nat, dst: Bytes, src: Bytes, packet: Bytes, bufferSize: nat)
    requires vni < 0x100_0000 && |dst| == 6 && |src| == 6 && |packet| < 0x1_0000 && 8 + FrameSize(|packet|) <= bufferSize
    ensures var f := RoundTrip(vni, dst, src, packet, bufferSize);
      f.Some? ==> f.value.vni == vni && f.value.parsed.dst == dst && f.value.parsed.src == src
  {
    var h := Forwarded(packet);
    if h.Some? {
      InnermostIPv4(packet, NOTHING);
      var ip := h.value;
      if ip.payload == [] {
        EmptyPayloadSendsNothing(vni, dst, src, ip, bufferSize);
      } else {
        SentIPv4(vni, dst, src, ip, bufferSize);
        var e := EncodeIPv4(ip, ip.payload);
        var q := Parsed([EthernetKind], dst, src, None, None, None);
        if Parse(LISTENED, IPv4Kind, e + Padding(|e|), q).Some? {
          ParseKeepsAddresses(LISTENED, IPv4Kind, e + Padding(|e|), q);
        }
      }
    }
  }

  // ---------------------------------------------------------------- inputs

  /** A packet with no options and no more in its header than it needs. */
  function Simple(protocol: Byte, payload: Bytes): Bytes
    requires |payload| < 200
  {
    var length := 20 + |payload|;
    [0x45, 0, 0, length, 0, 0, 0, 0, 0, protocol] + Put16(0xFFFF - (0x4500 + length + protocol)) + Pairs(4) + payload
  }

  lemma SimpleSum(length: Byte, protocol: Byte)
    ensures WordSum([0x45, 0, 0, length, 0, 0, 0, 0, 0, protocol]) == 0x4500 + length + protocol
  {
    var a: Bytes := [0x45, 0, 0, length, 0, 0, 0, 0, 0, protocol];
    var b: Bytes := [0, length, 0, 0, 0, 0, 0, protocol];
    var c: Bytes := [0, 0, 0, 0, 0, protocol];
    var d: Bytes := [0, 0, 0, protocol];
    var e: Bytes := [0, protocol];
    assert a[2..] == b && b[2..] == c && c[2..] == d && d[2..] == e && e[2..] == [];
    assert WordSum(e) == protocol;
    assert WordSum(d) == protocol;
    assert WordSum(c) == protocol;
    assert WordSum(b) == length + protocol;
  }

  lemma SimpleSlices(fixed: Bytes, ck: Bytes, zeros: Bytes, payload: Bytes)
    requires |fixed| == 10 && |ck| == 2 && |zeros| == 8
    ensures var p := fixed + ck + zeros + payload;
      p[..10] == fixed && p[10] == ck[0] && p[11] == ck[1] && p[12..20] == zeros && p[20..] == payload
  {
  }

  lemma SimpleShape(protocol: Byte, payload: Bytes)
    requires 0 < |payload| < 200
    ensures var p, length := Simple(protocol, payload), 20 + |payload|;
      && |p| == length && p[..10] == [0x45, 0, 0, length, 0, 0, 0, 0, 0, protocol]
      && Get16(p[10], p[11]) == 0xFFFF - (0x4500 + length + protocol)
      && p[12..20] == Pairs(4) && p[20..] == payload
  {
    var length := 20 + |payload|;
    var w := 0xFFFF - (0x4500 + length + protocol);
    WordSumOfZeros(4);
    SimpleSlices([0x45, 0, 0, length, 0, 0, 0, 0, 0, protocol], Put16(w), Pairs(4), payload);
    GetPut16(w);
  }

  lemma SimpleIsConsistent(protocol: Byte, payload: Bytes)
    requires 0 < |payload| < 200
    ensures var p := Simple(protocol, payload);
      && Consistent(p) && HeaderLength(p) == 20 && OptionsKept(p) && p[9] == protocol
      && (Plain(p) <==> protocol != 4 && protocol != 94 && protocol != 41)
  {
    var p, length := Simple(protocol, payload), 20 + |payload|;
    var fixed: Bytes := [0x45, 0, 0, length, 0, 0, 0, 0, 0, protocol];
    SimpleShape(protocol, payload);
    forall k | 0 <= k < 10 ensures p[k] == fixed[k] {
      assert p[k] == p[..10][k];
    }
    assert RawOptions(p) == [];
  }

  lemma SimpleChecksum(length: Byte, protocol: Byte)
    requires 20 < length < 220
    ensures Checksum(Cleared([0x45, 0, 0, length, 0, 0, 0, 0, 0, protocol], Pairs(4))) == 0xFFFF - (0x4500 + length + protocol)
  {
    WordSumOfZeros(4);
    WordSumOfZeros(1);
    assert [0, 0] == Pairs(1);
    SimpleSum(length, protocol);
    WordSumOfParts([0x45, 0, 0, length, 0, 0, 0, 0, 0, protocol], [0, 0], Pairs(4));
  }

  lemma SimpleIsExact(protocol: Byte, payload: Bytes)
    requires 0 < |payload| < 200
    ensures var p := Simple(protocol, payload);
      && Consistent(p) && ChecksumExact(p) && OptionsKept(p)
      && DecodeIPv4(p).Some? && DecodeIPv4(p).value.payload == payload && EncodeIPv4(DecodeIPv4(p).value, payload) == p
      && (Plain(p) <==> protocol != 4 && protocol != 94 && protocol != 41) && p[9] == protocol
  {
    var p := Simple(protocol, payload);
    SimpleIsConsistent(protocol, payload);
    SimpleShape(protocol, payload);
    SimpleChecksum(20 + |payload|, protocol);
    DecodePadded(p, []);
    ReencodingIsIdentityIff(p, DecodeIPv4(p).value);
  }

  const DATAGRAM: Bytes := Simple(17, [7])

  /** An IPv6 packet without a next header, one byte long. */
  const SIX: Bytes := [0x60, 0, 0, 0, 0, 1, 59, 0] + Zeros(32) + [7]

  /** IPv4 in IPv4: the inner packet arrives instead of the packet. */
  lemma InnerArrivesInstead(vni: nat, dst: Bytes, src: Bytes, bufferSize: nat)
    requires vni < 0x100_0000 && |dst| == 6 && |src| == 6 && 68 <= bufferSize
    ensures var packet := Simple(4, DATAGRAM);
      && Consistent(packet) && ChecksumExact(packet)
      && Holds(RoundTrip(vni, dst, src, packet, bufferSize), vni, dst, src, DATAGRAM)
  {
    var packet := Simple(4, DATAGRAM);
    SimpleIsExact(17, [7]);
    SimpleIsExact(4, DATAGRAM);
    OuterIsLost(vni, dst, src, packet, DecodeIPv4(packet).value);
    PassesIff(vni, dst, src, DATAGRAM, bufferSize);
  }

  lemma SixDecodes()
    ensures DecodeIPv6(SIX) == Some(IPv6(59, SIX[..40], [7])) && SIX[..40] + [7] == SIX
  {
    assert SIX[40..] == [7];
  }

  /** IPv6 in IPv4: the packet arrives and the inner one after it. */
  lemma InnerArrivesToo(vni: nat, dst: Bytes, src: Bytes, bufferSize: nat)
    requires vni < 0x100_0000 && |dst| == 6 && |src| == 6 && 83 <= bufferSize
    ensures var packet := Simple(41, SIX);
      var f := RoundTrip(vni, dst, src, packet, bufferSize);
      && Consistent(packet) && ChecksumExact(packet)
      && f.Some? && Packets(f.value.parsed, f.value.parsed.decoded) == [packet, SIX]
  {
    var packet := Simple(41, SIX);
    SimpleIsExact(41, SIX);
    SixDecodes();
    SixInFourArrives(vni, dst, src, packet, DecodeIPv4(packet).value, bufferSize, RoundTrip(vni, dst, src, packet, bufferSize));
  }

  /** What is announced as IPv6 and is none: the packet is lost. */
  lemma NothingArrives(vni: nat, dst: Bytes, src: Bytes, bufferSize: nat)
    requires vni < 0x100_0000 && |dst| == 6 && |src| == 6 && 68 <= bufferSize
    ensures var packet := Simple(41, [7]);
      Consistent(packet) && ChecksumExact(packet) && RoundTrip(vni, dst, src, packet, bufferSize).None?
  {
    var packet := Simple(41, [7]);
    SimpleIsExact(41, [7]);
    SixInFourArrives(vni, dst, src, packet, DecodeIPv4(packet).value, bufferSize, RoundTrip(vni, dst, src, packet, bufferSize));
  }
}
