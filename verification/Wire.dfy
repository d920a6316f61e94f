/** The IPv4 layer of the tunnel: 16-bit fields, the Internet checksum, and parsing a packet and serializing it again.
    The layout is that of section 3.1 of RFC 791, the checksum that of RFC 1071. */
module Wire {
  import opened Bits
  import opened Sequences

  type Bytes = seq<Byte>

  // ---------------------------------------------------------------- fields

  function Put16(n: nat): (b: Bytes)
    requires n < 0x1_0000
    ensures |b| == 2
  {
    [n / 0x100, n % 0x100]
  }

  function Get16(hi: Byte, lo: Byte): (n: nat)
    ensures n < 0x1_0000
  {
    hi * 0x100 + lo
  }

  lemma PutGet16(hi: Byte, lo: Byte)
    ensures Put16(Get16(hi, lo)) == [hi, lo]
  {
  }

  lemma GetPut16(n: nat)
    requires n < 0x1_0000
    ensures Get16(Put16(n)[0], Put16(n)[1]) == n
  {
  }

  // ---------------------------------------------------------------- Internet checksum

  /** The sum of the big-endian 16-bit words. */
  function WordSum(b: Bytes): nat
    requires |b| % 2 == 0
  {
    if b == [] then 0 else Get16(b[0], b[1]) + WordSum(b[2..])
  }

  /** Add the carries back in until the sum fits in 16 bits. */
  function Fold(n: nat): (r: nat)
    ensures r <= 0xFFFF
  {
    if n <= 0xFFFF then n else Fold(n / 0x1_0000 + n % 0x1_0000)
  }

  /** A header whose checksum field is cleared: what precedes the field, two zeros, and what follows. */
  function Cleared(before: Bytes, after: Bytes): Bytes {
    before + [0, 0] + after
  }

  /** The checksum the serializer computes over a header whose checksum field is cleared. */
  function Checksum(cleared: Bytes): (r: nat)
    requires |cleared| % 2 == 0
    ensures r <= 0xFFFF
  {
    0xFFFF - Fold(WordSum(cleared))
  }

  /** Folding keeps the residue modulo 2^16 - 1, and is zero only for zero. */
  lemma {:induction false} FoldResidue(n: nat)
    ensures Fold(n) % 0xFFFF == n % 0xFFFF
    ensures Fold(n) == 0 <==> n == 0
    decreases n
  {
    if n > 0xFFFF {
      var q, r := n / 0x1_0000, n % 0x1_0000;
      FoldResidue(q + r);
      SameResidue(q + r, q);
    }
  }

  lemma SameResidue(m: nat, q: nat)
    ensures (m + 0xFFFF * q) % 0xFFFF == m % 0xFFFF
  {
  }

  lemma {:induction false} WordSumAppend(a: Bytes, b: Bytes)
    requires |a| % 2 == 0 && |b| % 2 == 0
    ensures WordSum(a + b) == WordSum(a) + WordSum(b)
  {
    if a == [] {
      assert a + b == b;
    } else {
      assert (a + b)[2..] == a[2..] + b;
      WordSumAppend(a[2..], b);
    }
  }

  lemma WordSumOfPair(hi: Byte, lo: Byte)
    ensures WordSum([hi, lo]) == Get16(hi, lo)
  {
    var pair := [hi, lo];
    assert pair[2..] == [];
  }

  lemma WordSumOfParts(before: Bytes, middle: Bytes, after: Bytes)
    requires |before| % 2 == 0 && |middle| % 2 == 0 && |after| % 2 == 0
    ensures |before + middle + after| % 2 == 0
    ensures WordSum(before + middle + after) == WordSum(before) + WordSum(middle) + WordSum(after)
  {
    var front := before + middle;
    WordSumAppend(before, middle);
    WordSumAppend(front, after);
  }

  /** The header's words sum to the words without the checksum, plus the checksum. */
  lemma WordSumOfHeader(before: Bytes, hi: Byte, lo: Byte, after: Bytes)
    requires |before| % 2 == 0 && |after| % 2 == 0
    ensures WordSum(before + [hi, lo] + after) == WordSum(Cleared(before, after)) + Get16(hi, lo)
  {
    WordSumOfParts(before, [hi, lo], after);
    WordSumOfParts(before, [0, 0], after);
    WordSumOfPair(hi, lo);
    WordSumOfPair(0, 0);
  }

  lemma WordSumPositive(before: Bytes, after: Bytes)
    requires |before| % 2 == 0 && |after| % 2 == 0 && before != [] && before[0] != 0
    ensures WordSum(Cleared(before, after)) > 0
  {
    var c := Cleared(before, after);
    assert c[0] == before[0];
  }

  /** RFC 1071's check on receipt: the words, checksum included, fold to all ones. */
  predicate Verifies(header: Bytes)
    requires |header| % 2 == 0
  {
    Fold(WordSum(header)) == 0xFFFF
  }

  lemma ResidueOfSum(s: nat, c: nat)
    ensures (Fold(s) + c) % 0xFFFF == (s + c) % 0xFFFF
  {
    var f := Fold(s);
    FoldResidue(s);
    SameResidue(s % 0xFFFF + c, s / 0xFFFF);
    SameResidue(f % 0xFFFF + c, f / 0xFFFF);
    assert s + c == s % 0xFFFF + c + 0xFFFF * (s / 0xFFFF);
    assert f + c == f % 0xFFFF + c + 0xFFFF * (f / 0xFFFF);
  }

  /** Two 16-bit numbers whose sum, carries added back in, is g. */
  lemma AllOnesIff(f: nat, c: nat, g: nat)
    requires f <= 0xFFFF && c <= 0xFFFF && g <= 0xFFFF
    requires g % 0xFFFF == (f + c) % 0xFFFF && (g == 0 <==> f == 0 && c == 0)
    ensures g == 0xFFFF <==> c == 0xFFFF - f || (c == 0xFFFF && f == 0xFFFF)
  {
  }

  /** A sum and a checksum fold to all ones exactly when the checksum is the complement of the folded sum, zero being
      written either way. */
  lemma ComplementResidue(s: nat, c: nat)
    requires c <= 0xFFFF
    ensures Fold(s + c) == 0xFFFF <==> c == 0xFFFF - Fold(s) || (c == 0xFFFF && Fold(s) == 0xFFFF)
  {
    FoldResidue(s);
    FoldResidue(s + c);
    ResidueOfSum(s, c);
    AllOnesIff(Fold(s), c, Fold(s + c));
  }

  /** A header verifies exactly when it carries the checksum the serializer computes, or all ones where that is zero. */
  lemma VerifiesIff(before: Bytes, hi: Byte, lo: Byte, after: Bytes)
    requires |before| % 2 == 0 && |after| % 2 == 0
    ensures var computed := Checksum(Cleared(before, after));
      Verifies(before + [hi, lo] + after) <==> Get16(hi, lo) == computed || (Get16(hi, lo) == 0xFFFF && computed == 0)
  {
    WordSumOfHeader(before, hi, lo, after);
    ComplementResidue(WordSum(Cleared(before, after)), Get16(hi, lo));
  }

  /** So in a header that verifies, and is not all zeros, the stored checksum is the computed one unless it is all ones. */
  lemma VerifiesIsComputed(before: Bytes, hi: Byte, lo: Byte, after: Bytes)
    requires |before| % 2 == 0 && |after| % 2 == 0 && before != [] && before[0] != 0
    requires Verifies(before + [hi, lo] + after)
    ensures Get16(hi, lo) == Checksum(Cleared(before, after)) <==> Get16(hi, lo) != 0xFFFF
  {
    VerifiesIff(before, hi, lo, after);
    WordSumPositive(before, after);
    FoldResidue(WordSum(Cleared(before, after)));
  }

  // ---------------------------------------------------------------- IPv4

  /** A decoded IPv4 layer. Its options are held as the bytes that the serializer writes for them. */
  datatype IPv4 = IPv4(version: nat, tos: Byte, id: nat, fragment: nat, ttl: Byte, protocol: Byte,
                       src: Bytes, dst: Bytes, options: Bytes, contents: Bytes, payload: Bytes)

  /** The options one after another, up to the one that ends the list; None when one is cut short or announces no data. */
  function OptionBytes(raw: Bytes): (r: Option<Bytes>)
    ensures r.Some? ==> |r.value| <= |raw|
  {
    if raw == [] then Some([])
    else if raw[0] == 0 then Some([0])
    else if raw[0] == 1 then
      var rest := OptionBytes(raw[1..]);
      if rest.None? then None else Some([1] + rest.value)
    else if |raw| < 2 || |raw| < raw[1] || raw[1] <= 2 then None
    else
      var rest := OptionBytes(raw[raw[1]..]);
      if rest.None? then None else Some(raw[..raw[1]] + rest.value)
  }

  function Zeros(n: nat): Bytes {
    seq(n, _ => 0)
  }

  /** What is missing to whole 32-bit words. */
  function Fill(n: nat): (r: nat)
    ensures r < 4 && (n + r) % 4 == 0 && (n % 4 == 0 ==> r == 0)
  {
    (4 - n % 4) % 4
  }

  lemma FillFits(n: nat, m: nat)
    requires n <= m && m % 4 == 0
    ensures n + Fill(n) <= m
  {
  }

  /** Filled up with zeros to whole words. */
  function Aligned(b: Bytes): (r: Bytes)
    ensures |r| % 4 == 0 && |r| == |b| + Fill(|b|)
  {
    b + Zeros(Fill(|b|))
  }

  function DecodeOptions(raw: Bytes): (r: Option<Bytes>)
    ensures r.Some? ==> |r.value| % 4 == 0
  {
    var b := OptionBytes(raw);
    if b.None? then None else Some(Aligned(b.value))
  }

  lemma OptionsFit(raw: Bytes)
    requires |raw| % 4 == 0 && DecodeOptions(raw).Some?
    ensures |DecodeOptions(raw).value| <= |raw|
  {
    FillFits(|OptionBytes(raw).value|, |raw|);
  }

  /** One option that does not end the list. */
  predicate OneOption(head: Bytes) {
    head != [] && head[0] != 0 && if head[0] == 1 then |head| == 1 else |head| > 2 && head[1] == |head|
  }

  lemma OptionCons(head: Bytes, rest: Bytes)
    requires OneOption(head)
    ensures OptionBytes(head + rest) == if OptionBytes(rest).None? then None else Some(head + OptionBytes(rest).value)
  {
    var raw := head + rest;
    assert raw[..|head|] == head && raw[|head|..] == rest;
    assert raw[0] == head[0];
    if head[0] == 1 {
      assert head == [1];
    } else {
      assert raw[1] == head[1];
    }
  }

  lemma FirstOption(raw: Bytes) returns (head: Bytes, rest: Bytes)
    requires raw != [] && raw[0] != 0 && OptionBytes(raw).Some?
    ensures OneOption(head) && raw == head + rest
  {
    var n: nat := if raw[0] == 1 then 1 else raw[1];
    head, rest := raw[..n], raw[n..];
  }

  /** What is written for the options, whatever follows, reads as the same options, if any of them was left out. */
  lemma {:induction false} OptionsAgain(raw: Bytes, tail: Bytes)
    requires OptionBytes(raw).Some?
    ensures OptionBytes(raw).value == raw || OptionBytes(OptionBytes(raw).value + tail) == OptionBytes(raw)
    decreases |raw|
  {
    if raw != [] {
      if raw[0] != 0 {
        var head, rest := FirstOption(raw);
        OptionCons(head, rest);
        OptionsAgain(rest, tail);
        var written := OptionBytes(rest).value;
        Regroup(head, written, tail);
        OptionCons(head, written + tail);
      } else {
        assert ([0] + tail)[0] == 0;
      }
    }
  }

  /** Reading and writing options twice is doing it once. */
  lemma OptionsTwice(raw: Bytes)
    requires |raw| % 4 == 0 && DecodeOptions(raw).Some?
    ensures DecodeOptions(DecodeOptions(raw).value) == DecodeOptions(raw)
  {
    var b := OptionBytes(raw).value;
    OptionsAgain(raw, Zeros(Fill(|b|)));
    if b == raw {
      assert Aligned(b) == b;
    }
  }

  /** Options that are not kept: a word of padding too many is dropped, padding other than zeros is zeroed, and an option
      that announces no data is an error. */
  lemma OptionsNotKept()
    ensures DecodeOptions([0, 0, 0, 0, 0, 0, 0, 0]) == Some([0, 0, 0, 0])
    ensures DecodeOptions([1, 0, 1, 1]) == Some([1, 0, 0, 0])
    ensures DecodeOptions([7, 2, 0, 0]).None?
  {
    assert [0] + Zeros(3) == [0, 0, 0, 0];
    var rest: Bytes := [0, 1, 1];
    assert rest[0] == 0 && OptionBytes(rest) == Some([0]);
    OptionCons([1], rest);
    assert [1] + rest == [1, 0, 1, 1] && [1] + [0] == [1, 0];
    assert [1, 0] + Zeros(2) == [1, 0, 0, 0];
  }

  /** The header length announced by the low nibble of the first byte. */
  function HeaderLength(data: Bytes): nat
    requires data != []
  {
    data[0] % 16 * 4
  }

  /** The total length field; zero stands for the length of the data (segmentation offload). */
  function TotalLength(data: Bytes): nat
    requires |data| >= 20
  {
    var length := Get16(data[2], data[3]);
    if length == 0 then |data| % 0x1_0000 else length
  }

  /** Decode a header and cut the data off at the total length, which drops an Ethernet padding. */
  function DecodeIPv4(data: Bytes): Option<IPv4> {
    if |data| < 20 then None
    else
      var length, header := TotalLength(data), HeaderLength(data);
      if length < 20 || header < 20 || header > length then None
      else if |data| < header then None
      else
        var packet, options := if |data| > length then data[..length] else data, DecodeOptions(data[20..header]);
        if options.None? then None
        else
          Some(IPv4(data[0] / 16, data[1], Get16(data[4], data[5]), Get16(data[6], data[7]), data[8], data[9],
                    data[12..16], data[16..20], options.value, packet[..header], packet[header..]))
  }

  /** What serializing demands of a layer: fields that fit and options in whole 32-bit words. */
  predicate Encodable(ip: IPv4) {
    && ip.version < 16 && ip.id < 0x1_0000 && ip.fragment < 0x1_0000
    && |ip.src| == 4 && |ip.dst| == 4 && |ip.options| % 4 == 0 && |ip.options| <= 40
  }

  lemma HeaderIsWords(data: Bytes)
    requires data != []
    ensures HeaderLength(data) % 4 == 0 && HeaderLength(data) <= 60
    ensures HeaderLength(data) >= 20 ==> (HeaderLength(data) - 20) % 4 == 0
  {
    var words: nat := data[0] % 16;
    assert HeaderLength(data) - 20 == 4 * (words - 5);
  }

  lemma DecodedIsEncodable(data: Bytes)
    requires DecodeIPv4(data).Some?
    ensures Encodable(DecodeIPv4(data).value)
  {
    HeaderIsWords(data);
    OptionsFit(data[20..HeaderLength(data)]);
  }

  /** The header bytes before the checksum, with the lengths recomputed from what follows. */
  function Before(ip: IPv4, payloadLength: nat): (b: Bytes)
    requires Encodable(ip)
    ensures |b| == 10
  {
    var length := (20 + |ip.options| + payloadLength) % 0x1_0000;
    [ip.version * 16 + 5 + |ip.options| / 4, ip.tos, length / 0x100, length % 0x100,
     ip.id / 0x100, ip.id % 0x100, ip.fragment / 0x100, ip.fragment % 0x100, ip.ttl, ip.protocol]
  }

  /** The header bytes after the checksum. */
  function Rest(ip: IPv4): Bytes {
    ip.src + ip.dst + ip.options
  }

  /** Prepend the header, with recomputed lengths and checksum, to what is already in the buffer. */
  function EncodeIPv4(ip: IPv4, payload: Bytes): Bytes
    requires Encodable(ip)
  {
    var before, rest := Before(ip, |payload|), Rest(ip);
    before + Put16(Checksum(Cleared(before, rest))) + rest + payload
  }

  /** A packet fit for the tunnel: IPv4, header and total length consistent with its size, and a payload. */
  predicate Consistent(packet: Bytes) {
    && 20 < |packet| < 0x1_0000
    && packet[0] / 16 == 4
    && 20 <= HeaderLength(packet) < |packet|
    && Get16(packet[2], packet[3]) == |packet|
  }

  /** The checksum computed over the rest of the header. */
  function ComputedChecksum(packet: Bytes): (r: nat)
    requires Consistent(packet)
    ensures r <= 0xFFFF
  {
    HeaderIsWords(packet);
    Checksum(Cleared(packet[..10], packet[12..HeaderLength(packet)]))
  }

  /** It is the one that is stored. */
  predicate ChecksumExact(packet: Bytes)
    requires Consistent(packet)
  {
    Get16(packet[10], packet[11]) == ComputedChecksum(packet)
  }

  /** The options of a packet as they stand in it. */
  function RawOptions(packet: Bytes): Bytes
    requires Consistent(packet)
  {
    packet[20..HeaderLength(packet)]
  }

  /** The options are what is written for them: nothing but zeros to fill up the last word follows the one that ends the
      list. */
  predicate OptionsKept(packet: Bytes)
    requires Consistent(packet)
  {
    DecodeOptions(RawOptions(packet)) == Some(RawOptions(packet))
  }

  /** What decoding a consistent packet yields, field by field. */
  ghost predicate DecodesTo(packet: Bytes, ip: IPv4)
    requires Consistent(packet)
  {
    var header := HeaderLength(packet);
    && Encodable(ip)
    && ip.version == packet[0] / 16 && ip.tos == packet[1]
    && ip.id == Get16(packet[4], packet[5]) && ip.fragment == Get16(packet[6], packet[7])
    && ip.ttl == packet[8] && ip.protocol == packet[9]
    && ip.src == packet[12..16] && ip.dst == packet[16..20]
    && DecodeOptions(RawOptions(packet)) == Some(ip.options)
    && ip.contents == packet[..header]
    && ip.payload == packet[header..]
  }

  /** Decoding a packet, whatever padding follows it, fails exactly for options that do not parse, and otherwise yields its
      fields. */
  lemma DecodePadded(packet: Bytes, padding: Bytes)
    requires Consistent(packet)
    ensures DecodeIPv4(packet + padding) == DecodeIPv4(packet)
    ensures DecodeIPv4(packet).Some? <==> DecodeOptions(RawOptions(packet)).Some?
    ensures DecodeIPv4(packet).Some? ==> DecodesTo(packet, DecodeIPv4(packet).value)
  {
    var header, data := HeaderLength(packet), packet + padding;
    assert data[..|packet|] == packet;
    assert |data| == |packet| ==> data == packet;
    assert data[12..16] == packet[12..16] && data[16..20] == packet[16..20] && data[20..header] == packet[20..header];
    if DecodeIPv4(packet).Some? {
      DecodedIsEncodable(packet);
    }
  }

  lemma ZeroLength(data: Bytes)
    requires 20 <= |data| < 0x1_0000 && data[2] == 0 && data[3] == 0
    ensures TotalLength(data) == |data|
  {
  }

  /** A total length of zero stands for whatever there is. */
  lemma ZeroLengthTakesAll(data: Bytes, header: nat)
    requires 20 <= |data| < 0x1_0000 && data[2] == 0 && data[3] == 0
    requires 20 <= header <= |data| && header == HeaderLength(data)
    requires DecodeOptions(data[20..header]).Some?
    ensures DecodeIPv4(data).Some?
    ensures var ip := DecodeIPv4(data).value; ip.contents == data[..header] && ip.contents + ip.payload == data
  {
    ZeroLength(data);
    assert data[..header] + data[header..] == data;
  }

  /** The version and header length byte. */
  lemma FirstByte(b: Byte, header: nat)
    requires header == b % 16 * 4 && header >= 20
    ensures b / 16 * 16 + 5 + (header - 20) / 4 == b
  {
  }

  /** The recomputed total length is the stored one. */
  lemma LengthIsStored(packet: Bytes, ip: IPv4)
    requires Consistent(packet) && DecodesTo(packet, ip) && OptionsKept(packet)
    ensures (20 + |ip.options| + |ip.payload|) % 0x1_0000 == Get16(packet[2], packet[3])
  {
  }

  /** Field by field, the recomputed bytes before the checksum are the stored ones. */
  lemma BeforeIsStored(packet: Bytes, ip: IPv4)
    requires Consistent(packet) && DecodesTo(packet, ip) && OptionsKept(packet)
    ensures Before(ip, |ip.payload|) == packet[..10]
  {
    var b := Before(ip, |ip.payload|);
    LengthIsStored(packet, ip);
    FirstByte(packet[0], HeaderLength(packet));
    PutGet16(packet[2], packet[3]);
    PutGet16(packet[4], packet[5]);
    PutGet16(packet[6], packet[7]);
    forall k | 0 <= k < 10 ensures b[k] == packet[k] {
    }
  }

  lemma RestIsStored(packet: Bytes, ip: IPv4)
    requires Consistent(packet) && DecodesTo(packet, ip)
    ensures Rest(ip) == packet[12..HeaderLength(packet)] <==> OptionsKept(packet)
  {
    var header := HeaderLength(packet);
    assert packet[12..header] == packet[12..16] + packet[16..20] + packet[20..header];
    assert Rest(ip)[8..] == ip.options && packet[12..header][8..] == packet[20..header];
  }

  lemma EncodedLength(ip: IPv4)
    requires Encodable(ip)
    ensures |EncodeIPv4(ip, ip.payload)| == 20 + |ip.options| + |ip.payload|
  {
  }

  lemma EncodedSlices(before: Bytes, ck: Bytes, rest: Bytes, payload: Bytes)
    requires |before| == 10 && |ck| == 2
    ensures var e := before + ck + rest + payload;
      && e[..10] == before && e[10] == ck[0] && e[11] == ck[1]
      && e[12..12 + |rest|] == rest && e[12 + |rest|..] == payload
  {
  }

  /** Parsing and serializing a consistent packet whose options are kept changes at most its checksum. */
  lemma ReencodedIPv4(packet: Bytes, ip: IPv4)
    requires Consistent(packet) && DecodesTo(packet, ip) && OptionsKept(packet)
    ensures var header := HeaderLength(packet);
      EncodeIPv4(ip, ip.payload) ==
      packet[..10] + Put16(ComputedChecksum(packet)) + packet[12..header] + packet[header..]
  {
    var before, rest, payload := Before(ip, |ip.payload|), Rest(ip), ip.payload;
    assert before == packet[..10] by {
      BeforeIsStored(packet, ip);
    }
    assert rest == packet[12..HeaderLength(packet)] by {
      RestIsStored(packet, ip);
    }
    assert payload == packet[HeaderLength(packet)..];
  }

  lemma IdentityKeepsOptions(packet: Bytes, ip: IPv4)
    requires Consistent(packet) && DecodesTo(packet, ip) && EncodeIPv4(ip, ip.payload) == packet
    ensures OptionsKept(packet)
  {
    var before, rest := Before(ip, |ip.payload|), Rest(ip);
    EncodedLength(ip);
    EncodedSlices(before, Put16(Checksum(Cleared(before, rest))), rest, ip.payload);
    RestIsStored(packet, ip);
  }

  /** It changes nothing exactly when the options are kept and the stored checksum is the computed one. */
  lemma ReencodingIsIdentityIff(packet: Bytes, ip: IPv4)
    requires Consistent(packet) && DecodesTo(packet, ip)
    ensures EncodeIPv4(ip, ip.payload) == packet <==> OptionsKept(packet) && ChecksumExact(packet)
  {
    var header := HeaderLength(packet);
    var w := ComputedChecksum(packet);
    if OptionsKept(packet) {
      assert EncodeIPv4(ip, ip.payload) == packet[..10] + Put16(w) + packet[12..header] + packet[header..] by {
        ReencodedIPv4(packet, ip);
      }
      SplicedWord(packet, header, w);
    } else if EncodeIPv4(ip, ip.payload) == packet {
      IdentityKeepsOptions(packet, ip);
    }
  }

  /** The total length and the header length that are written. */
  lemma BeforeLength(ip: IPv4, payloadLength: nat)
    requires Encodable(ip) && 20 + |ip.options| + payloadLength < 0x1_0000
    ensures var b := Before(ip, payloadLength);
      && Get16(b[2], b[3]) == 20 + |ip.options| + payloadLength
      && b[0] / 16 == ip.version && b[0] % 16 * 4 == 20 + |ip.options|
      && Get16(b[4], b[5]) == ip.id && Get16(b[6], b[7]) == ip.fragment
  {
    GetPut16(20 + |ip.options| + payloadLength);
    GetPut16(ip.id);
    GetPut16(ip.fragment);
    assert |ip.options| == 4 * (|ip.options| / 4);
  }

  lemma RestSlices(ip: IPv4)
    requires Encodable(ip)
    ensures var rest := Rest(ip); |rest| == 8 + |ip.options| && rest[..4] == ip.src && rest[4..8] == ip.dst && rest[8..] == ip.options
  {
  }

  lemma EncodedParts(ip: IPv4)
    requires Encodable(ip)
    ensures var e, before, rest := EncodeIPv4(ip, ip.payload), Before(ip, |ip.payload|), Rest(ip);
      && |e| == 20 + |ip.options| + |ip.payload|
      && e[..10] == before && Get16(e[10], e[11]) == Checksum(Cleared(before, rest))
      && e[12..20 + |ip.options|] == rest && e[20 + |ip.options|..] == ip.payload
      && e[12..16] == ip.src && e[16..20] == ip.dst && e[20..20 + |ip.options|] == ip.options
      && forall k :: 0 <= k < 10 ==> e[k] == before[k]
  {
    var e, before, rest := EncodeIPv4(ip, ip.payload), Before(ip, |ip.payload|), Rest(ip);
    var ck := Checksum(Cleared(before, rest));
    EncodedLength(ip);
    EncodedSlices(before, Put16(ck), rest, ip.payload);
    GetPut16(ck);
    RestSlices(ip);
    var middle := e[12..20 + |ip.options|];
    assert middle[..4] == e[12..16] && middle[4..8] == e[16..20] && middle[8..] == e[20..20 + |ip.options|];
    forall k | 0 <= k < 10 ensures e[k] == before[k] {
      assert e[k] == e[..10][k];
    }
  }

  /** What is serialized from a decoded packet is consistent, has an exact checksum and kept options, and decodes as the
      packet did. */
  lemma EncodedIsExact(packet: Bytes, ip: IPv4)
    requires Consistent(packet) && DecodesTo(packet, ip)
    ensures var e := EncodeIPv4(ip, ip.payload);
      && Consistent(e) && ChecksumExact(e) && OptionsKept(e)
      && HeaderLength(e) == 20 + |ip.options|
      && DecodeIPv4(e) == Some(ip.(contents := e[..HeaderLength(e)]))
  {
    var e := EncodeIPv4(ip, ip.payload);
    HeaderIsWords(packet);
    OptionsFit(RawOptions(packet));
    OptionsTwice(RawOptions(packet));
    EncodedParts(ip);
    BeforeLength(ip, |ip.payload|);
    assert e[..|e|] == e;
    DecodePadded(e, []);
  }

  lemma SplicedWord(packet: Bytes, header: nat, w: nat)
    requires 12 <= header <= |packet| && w < 0x1_0000
    ensures packet[..10] + Put16(w) + packet[12..header] + packet[header..] == packet <==> Get16(packet[10], packet[11]) == w
  {
    var e := packet[..10] + Put16(w) + packet[12..header] + packet[header..];
    assert e[10] == Put16(w)[0] && e[11] == Put16(w)[1];
    GetPut16(w);
    PutGet16(packet[10], packet[11]);
    if Get16(packet[10], packet[11]) == w {
      assert e == packet;
    }
  }

  /** The header's checksum verifies by RFC 1071. */
  predicate HeaderVerifies(packet: Bytes)
    requires Consistent(packet)
  {
    HeaderIsWords(packet);
    Verifies(packet[..HeaderLength(packet)])
  }

  lemma VerifiedChecksum(packet: Bytes)
    requires Consistent(packet) && HeaderVerifies(packet)
    ensures ChecksumExact(packet) <==> Get16(packet[10], packet[11]) != 0xFFFF
  {
    var header := HeaderLength(packet);
    assert packet[..header] == packet[..10] + [packet[10], packet[11]] + packet[12..header];
    VerifiesIsComputed(packet[..10], packet[10], packet[11], packet[12..header]);
  }

  /** A packet whose checksum verifies by RFC 1071 survives unchanged exactly when its options are kept and its checksum field
      is not the all-ones zero, which the serializer never writes. */
  lemma VerifiedSurvivesIff(packet: Bytes, ip: IPv4)
    requires Consistent(packet) && DecodesTo(packet, ip)
    requires HeaderVerifies(packet)
    ensures EncodeIPv4(ip, ip.payload) == packet <==> OptionsKept(packet) && Get16(packet[10], packet[11]) != 0xFFFF
  {
    VerifiedChecksum(packet);
    ReencodingIsIdentityIff(packet, ip);
  }

  /** A packet whose header words sum to all ones without the checksum, so that the checksum is zero; it carries the
      other zero. */
  const ALL_ONES_PACKET: Bytes :=
    [0x45, 0, 0, 21, 0xBA, 0xEA, 0, 0, 0, 0, 0xFF, 0xFF, 0, 0, 0, 0, 0, 0, 0, 0, 7]

  lemma {:induction false} WordSumOfZeros(n: nat)
    ensures |Pairs(n)| == 2 * n && WordSum(Pairs(n)) == 0
    ensures forall k :: 0 <= k < 2 * n ==> Pairs(n)[k] == 0
  {
    if n > 0 {
      WordSumOfZeros(n - 1);
      assert Pairs(n)[2..] == Pairs(n - 1);
    }
  }

  function Pairs(n: nat): Bytes {
    if n == 0 then [] else [0, 0] + Pairs(n - 1)
  }

  lemma AllOnesSum()
    ensures WordSum([0x45, 0, 0, 21, 0xBA, 0xEA, 0, 0, 0, 0]) == 0xFFFF
  {
    var a: Bytes := [0x45, 0, 0, 21, 0xBA, 0xEA, 0, 0, 0, 0];
    var b: Bytes := [0, 21, 0xBA, 0xEA, 0, 0, 0, 0];
    var c: Bytes := [0xBA, 0xEA, 0, 0, 0, 0];
    WordSumOfZeros(2);
    assert a[2..] == b && b[2..] == c && c[2..] == Pairs(2);
    assert WordSum(c) == 0xBAEA;
    assert WordSum(b) == 0xBAFF;
  }

  lemma AllOnesShape()
    ensures var p := ALL_ONES_PACKET;
      && Consistent(p) && HeaderLength(p) == 20 && RawOptions(p) == [] && OptionsKept(p)
      && p[..10] == [0x45, 0, 0, 21, 0xBA, 0xEA, 0, 0, 0, 0] && p[10] == 0xFF && p[11] == 0xFF && p[12..20] == Pairs(4)
  {
    WordSumOfZeros(4);
    assert ALL_ONES_PACKET[12..20] == Pairs(4);
  }

  lemma AllOnesVerifies()
    ensures |ALL_ONES_PACKET| >= 20 && Verifies(ALL_ONES_PACKET[..20])
  {
    var packet := ALL_ONES_PACKET;
    var before, after := packet[..10], packet[12..20];
    AllOnesShape();
    AllOnesSum();
    WordSumOfZeros(4);
    WordSumOfZeros(1);
    assert [0, 0] == Pairs(1);
    WordSumOfParts(before, [0, 0], after);
    assert Checksum(Cleared(before, after)) == 0;
    VerifiesIff(before, 0xFF, 0xFF, after);
    assert packet[..20] == before + [0xFF, 0xFF] + after;
  }

  /** Such packets exist: this one is consistent, its checksum verifies, and the tunnel alters it. */
  lemma AllOnesChecksumIsAltered()
    ensures Consistent(ALL_ONES_PACKET) && HeaderVerifies(ALL_ONES_PACKET)
    ensures DecodeIPv4(ALL_ONES_PACKET).Some?
    ensures var ip := DecodeIPv4(ALL_ONES_PACKET).value; Encodable(ip) && EncodeIPv4(ip, ip.payload) != ALL_ONES_PACKET
  {
    AllOnesShape();
    AllOnesVerifies();
    DecodePadded(ALL_ONES_PACKET, []);
    VerifiedSurvivesIff(ALL_ONES_PACKET, DecodeIPv4(ALL_ONES_PACKET).value);
  }
}
