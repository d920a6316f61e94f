/** The packet library's decoding parser. It decodes one kind of layer after another, as each layer announces the next,
    for as long as there is payload left and the next kind is one that was registered with it. There is one variable for
    each registered kind, overwritten when a layer of that kind is decoded again. IPv6 is section 3 of RFC 8200, its
    hop-by-hop header section 4.3, the jumbo payload option section 2 of RFC 2675. */
module Parsing {
  import opened Bits
  import opened Sequences
  import opened Wire

  const ETHERTYPE_IPV4: nat := 0x0800
  const ETHERTYPE_ARP: nat := 0x0806
  const ETHERTYPE_IPV6: nat := 0x86DD
  const ETHERTYPE_ETHERNET: nat := 0x6558

  const PROTOCOL_HOP_BY_HOP: Byte := 0
  const PROTOCOL_IPV4: Byte := 4
  const PROTOCOL_IPV6: Byte := 41
  const PROTOCOL_IPIP: Byte := 94

  const JUMBO_OPTION: Byte := 0xC2

  /** An ARP layer with its addresses as byte slices; the announced sizes are those of the source addresses. */
  datatype Arp = Arp(addrType: nat, protocol: nat, operation: nat, srcHw: Bytes, srcProt: Bytes, dstHw: Bytes, dstProt: Bytes)

  /** A decoded IPv6 layer, as far as the program uses it. */
  datatype IPv6 = IPv6(next: Byte, contents: Bytes, payload: Bytes)

  /** The kinds of layer that matter here; any other kind is one that nobody registers. */
  datatype Kind = EthernetKind | ArpKind | IPv4Kind | IPv6Kind | OtherKind

  /** The kinds decoded, in order, and the parser's variables: the addresses of the last Ethernet header and the last layer
      of each other kind. */
  datatype Parsed = Parsed(decoded: seq<Kind>, dst: Bytes, src: Bytes, arp: Option<Arp>, ip4: Option<IPv4>, ip6: Option<IPv6>)

  const NOTHING := Parsed([], [], [], None, None, None)

  // ---------------------------------------------------------------- what comes next

  function NextOfEtherType(etherType: nat): Kind {
    if etherType == ETHERTYPE_IPV4 then IPv4Kind
    else if etherType == ETHERTYPE_IPV6 then IPv6Kind
    else if etherType == ETHERTYPE_ARP then ArpKind
    else if etherType == ETHERTYPE_ETHERNET then EthernetKind
    else OtherKind
  }

  function NextOfProtocol(protocol: Byte): Kind {
    if protocol == PROTOCOL_IPV4 || protocol == PROTOCOL_IPIP then IPv4Kind
    else if protocol == PROTOCOL_IPV6 then IPv6Kind
    else OtherKind
  }

  /** The more-fragments flag is set, or the fragment offset is not zero. */
  predicate IsFragment(field: nat) {
    field / 0x2000 % 2 == 1 || field % 0x2000 != 0
  }

  /** A fragment's payload is not decoded. */
  function NextOfIPv4(ip: IPv4): Kind {
    if IsFragment(ip.fragment) then OtherKind else NextOfProtocol(ip.protocol)
  }

  // ---------------------------------------------------------------- one layer

  /** The first length bytes of an ARP layer carry its addresses; what follows is padding. */
  function DecodeArp(data: Bytes): Option<Arp> {
    if |data| < 8 then None
    else
      var hw: nat, prot: nat := data[4], data[5];
      if |data| < 8 + 2 * hw + 2 * prot then None
      else
        var a, b, c := 8 + hw, 8 + hw + prot, 8 + 2 * hw + prot;
        Some(Arp(Get16(data[0], data[1]), Get16(data[2], data[3]), Get16(data[6], data[7]),
                 data[8..a], data[a..b], data[b..c], data[c..c + prot]))
  }

  /** The data of the first jumbo option from a position on, if any; None when an option is cut short. */
  function JumboFrom(data: Bytes, at: nat, end: nat): Option<Option<Bytes>>
    decreases end - at
  {
    if at >= end then Some(None)
    else if |data| < at + 2 then None
    else if data[at] == 0 then JumboFrom(data, at + 1, end)
    else
      var after: nat := at + 2 + data[at + 1];
      if |data| < after then None
      else
        var later := JumboFrom(data, after, end);
        if later.Some? && data[at] == JUMBO_OPTION then Some(Some(data[at + 2..after])) else later
  }

  /** Cut the data off at the length, if it is longer. */
  function CutOff(data: Bytes, length: nat): Bytes {
    if |data| > length then data[..length] else data
  }

  /** The fixed header, and the payload cut off at the announced length. A hop-by-hop header counts as part of the packet:
      it is taken out of the payload, except with a jumbo length, which must come with an announced length of zero. */
  function DecodeIPv6(data: Bytes): (r: Option<IPv6>)
    ensures r.Some? ==> |r.value.contents| + |r.value.payload| <= |data| && |r.value.contents| == 40
  {
    if |data| < 40 then None
    else
      var length, contents, rest := Get16(data[4], data[5]), data[..40], data[40..];
      if data[6] != PROTOCOL_HOP_BY_HOP then
        if length == 0 then None else Some(IPv6(data[6], contents, CutOff(rest, length)))
      else if |rest| < 2 then None
      else
        var words: nat := rest[1];
        var size := 8 * words + 8;
        var jumbo := if |rest| < size then None else JumboFrom(rest, 2, size);
        if jumbo.None? then None
        else if jumbo.value.None? then
          if length == 0 then None else Some(IPv6(rest[0], contents, CutOff(rest[size..], length)))
        else
          var field := jumbo.value.value;
          if |field| != 4 || length != 0 then None
          else
            var n := Get16(field[0], field[1]) * 0x1_0000 + Get16(field[2], field[3]);
            if n <= 0xFFFF then None else Some(IPv6(rest[0], contents, CutOff(rest, n)))
  }

  /** A layer decoded into its variable, the kind it announces and its payload. */
  datatype Advance = Advance(parsed: Parsed, next: Kind, payload: Bytes)

  function DecodeLayer(kind: Kind, data: Bytes, p: Parsed): (r: Option<Advance>)
    ensures r.Some? ==> r.value.parsed.decoded == p.decoded + [kind] && |r.value.payload| < |data|
  {
    match kind
    case EthernetKind =>
      if |data| < 14 then None
      else Some(Advance(p.(decoded := p.decoded + [kind], dst := data[..6], src := data[6..12]),
                        NextOfEtherType(Get16(data[12], data[13])), data[14..]))
    case ArpKind =>
      var a := DecodeArp(data);
      if a.None? then None else Some(Advance(p.(decoded := p.decoded + [kind], arp := a), OtherKind, []))
    case IPv4Kind =>
      var ip := DecodeIPv4(data);
      if ip.None? then None
      else
        IPv4Shortens(data);
        Some(Advance(p.(decoded := p.decoded + [kind], ip4 := ip), NextOfIPv4(ip.value), ip.value.payload))
    case IPv6Kind =>
      var ip := DecodeIPv6(data);
      if ip.None? then None
      else Some(Advance(p.(decoded := p.decoded + [kind], ip6 := ip), NextOfProtocol(ip.value.next), ip.value.payload))
    case OtherKind => None
  }

  lemma IPv4Shortens(data: Bytes)
    requires DecodeIPv4(data).Some?
    ensures var ip := DecodeIPv4(data).value;
      && |ip.contents| == HeaderLength(data) >= 20
      && |ip.contents| + |ip.payload| <= |data|
      && |ip.contents| + |ip.payload| <= TotalLength(data)
      && 20 + |ip.options| <= |ip.contents|
  {
    HeaderIsWords(data);
    OptionsFit(data[20..HeaderLength(data)]);
  }

  // ---------------------------------------------------------------- the chain

  /** Decode a layer of this kind and go on with the next; None on the first error. */
  function Parse(known: set<Kind>, kind: Kind, data: Bytes, p: Parsed): Option<Parsed>
    decreases |data|
  {
    var r := DecodeLayer(kind, data, p);
    if r.None? then None
    else if r.value.payload == [] || r.value.next !in known then Some(r.value.parsed)
    else Parse(known, r.value.next, r.value.payload, r.value.parsed)
  }

  /** An IPv6 packet of the announced length, with something behind its fixed header. */
  predicate WholeIPv6(packet: Bytes) {
    |packet| > 40 && Get16(packet[4], packet[5]) == |packet| - 40
  }

  /** Without a hop-by-hop header it decodes to itself, whatever padding follows it. */
  lemma PlainSixDecodes(packet: Bytes, padding: Bytes)
    requires WholeIPv6(packet) && packet[6] != 0
    ensures DecodeIPv6(packet + padding) == Some(IPv6(packet[6], packet[..40], packet[40..]))
  {
    var data := packet + padding;
    assert data[..40] == packet[..40] && data[40..] == packet[40..] + padding;
    CutsPadding(packet[40..], padding);
  }

  lemma CutsPadding(data: Bytes, padding: Bytes)
    ensures CutOff(data + padding, |data|) == data
  {
    if padding == [] {
      assert data + padding == data;
    } else {
      assert (data + padding)[..|data|] == data;
    }
  }

  /** A hop-by-hop header without a jumbo length is taken out, and as many bytes of the padding come in at the end: the
      announced length is not reckoned anew. */
  lemma HopByHopIsTakenOut(packet: Bytes, padding: Bytes, size: nat)
    requires WholeIPv6(packet) && packet[6] == 0 && |packet| >= 42
    requires size == (packet[41] as int) * 8 + 8 && 40 + size <= |packet| && size <= |padding|
    requires JumboFrom(packet[40..] + padding, 2, size) == Some(None)
    ensures DecodeIPv6(packet + padding) ==
            Some(IPv6(packet[40], packet[..40], packet[40 + size..] + padding[..size]))
  {
    var data, kept := packet + padding, packet[40 + size..] + padding[..size];
    var rest := packet[40..] + padding;
    assert data[..40] == packet[..40] && data[40..] == rest;
    assert rest[size..] == kept + padding[size..];
    CutsPadding(kept, padding[size..]);
  }

  /** Every decoded kind has its variable set. */
  predicate Complete(p: Parsed) {
    && (ArpKind in p.decoded ==> p.arp.Some?)
    && (IPv4Kind in p.decoded ==> p.ip4.Some?)
    && (IPv6Kind in p.decoded ==> p.ip6.Some?)
  }

  /** No IP packet in the variables is longer than this. */
  predicate Within(p: Parsed, n: nat) {
    && (p.ip4.Some? ==> |p.ip4.value.contents| + |p.ip4.value.payload| <= n)
    && (p.ip6.Some? ==> |p.ip6.value.contents| + |p.ip6.value.payload| <= n)
  }

  lemma LayerCompletes(kind: Kind, data: Bytes, p: Parsed)
    requires DecodeLayer(kind, data, p).Some? && Complete(p)
    ensures Complete(DecodeLayer(kind, data, p).value.parsed)
  {
  }

  /** What was decoded stays decoded, in front of what follows. */
  lemma {:induction false} ParseExtends(known: set<Kind>, kind: Kind, data: Bytes, p: Parsed)
    requires Parse(known, kind, data, p).Some? && Complete(p)
    ensures var q := Parse(known, kind, data, p).value;
      && Complete(q)
      && |q.decoded| > |p.decoded| && q.decoded[..|p.decoded| + 1] == p.decoded + [kind]
    decreases |data|
  {
    var r := DecodeLayer(kind, data, p).value;
    LayerCompletes(kind, data, p);
    if r.payload != [] && r.next in known {
      ParseExtends(known, r.next, r.payload, r.parsed);
      var q := Parse(known, kind, data, p).value;
      assert q.decoded[..|p.decoded| + 1] == q.decoded[..|p.decoded| + 2][..|p.decoded| + 1];
    }
  }

  lemma LayerWithin(kind: Kind, data: Bytes, p: Parsed, n: nat)
    requires DecodeLayer(kind, data, p).Some? && |data| <= n && Within(p, n)
    ensures Within(DecodeLayer(kind, data, p).value.parsed, n)
  {
    if kind == IPv4Kind {
      IPv4Shortens(data);
    }
  }

  /** No packet found inside data is longer than the data. */
  lemma {:induction false} ParseWithin(known: set<Kind>, kind: Kind, data: Bytes, p: Parsed, n: nat)
    requires Parse(known, kind, data, p).Some? && |data| <= n && Within(p, n)
    ensures Within(Parse(known, kind, data, p).value, n)
    decreases |data|
  {
    var r := DecodeLayer(kind, data, p).value;
    LayerWithin(kind, data, p, n);
    if r.payload != [] && r.next in known {
      ParseWithin(known, r.next, r.payload, r.parsed, n);
    }
  }

  /** Inside IP packets there are no further Ethernet headers, so their addresses stay. */
  lemma {:induction false} ParseKeepsAddresses(known: set<Kind>, kind: Kind, data: Bytes, p: Parsed)
    requires Parse(known, kind, data, p).Some? && kind != EthernetKind
    ensures Parse(known, kind, data, p).value.dst == p.dst && Parse(known, kind, data, p).value.src == p.src
    decreases |data|
  {
    var r := DecodeLayer(kind, data, p).value;
    if r.payload != [] && r.next in known {
      ParseKeepsAddresses(known, r.next, r.payload, r.parsed);
    }
  }

  /** Parsing for IPv4 alone ends with the innermost header, whose packet lies within the data. */
  lemma {:induction false} InnermostIPv4(data: Bytes, p: Parsed)
    requires Parse({IPv4Kind}, IPv4Kind, data, p).Some?
    ensures var ip := Parse({IPv4Kind}, IPv4Kind, data, p).value.ip4;
      && ip.Some? && Encodable(ip.value)
      && 20 + |ip.value.options| <= |ip.value.contents|
      && |ip.value.contents| + |ip.value.payload| <= |data|
    decreases |data|
  {
    var r := DecodeLayer(IPv4Kind, data, p).value;
    IPv4Shortens(data);
    DecodedIsEncodable(data);
    if r.payload != [] && r.next in {IPv4Kind} {
      InnermostIPv4(r.payload, r.parsed);
    }
  }
}
