/** ARP packets as the program sees them after decoding, the requests and replies it builds, and the effect of one
    received packet on the table ("Packet Reception" in RFC 826). */
module ArpProtocol {
  import opened Addresses
  import opened ArpTable
  import opened Forwarding
  import opened Sequences

  datatype Operation = Request | Reply | OtherOperation(code: nat)

  /** A protocol address is None when its slice has neither 4 nor 16 bytes and so does not parse. */
  datatype Packet = Packet(ethernet: bool, operation: Operation,
                           srcHw: Mac, srcProt: Option<Addr>, dstHw: Mac, dstProt: Option<Addr>)

  const ZERO_MAC: Mac := [0, 0, 0, 0, 0, 0]

  // ---------------------------------------------------------------- requests

  /** The length of AsSlice; the zero address has none. */
  function SliceLength(a: Option<Addr>): nat {
    match a
    case None => 0
    case Some(V4(_)) => 4
    case Some(V6(_, _)) => 16
  }

  /** The declared protocol address size, chosen by the family of the target alone. */
  function DeclaredSize(target: Addr): nat {
    if target.V4? then 4 else 16
  }

  function SourceAddress(addresses: seq<Prefix>, target: Addr): Option<Addr> {
    var p := PickSource(addresses, target);
    if p.Some? then Some(p.value.addr) else None
  }

  /** A request is well formed when both protocol addresses have the declared size; the serializer refuses others. */
  predicate WellFormed(source: Option<Addr>, target: Addr) {
    SliceLength(source) == DeclaredSize(target) == SliceLength(Some(target))
  }

  /** A request is well formed exactly when one of our prefixes is of the target's family, and then it names one of
      our own addresses as its source. */
  lemma RequestShape(addresses: seq<Prefix>, target: Addr)
    ensures WellFormed(SourceAddress(addresses, target), target) <==> exists p :: p in addresses && p.addr.V4? == target.V4?
    ensures SourceAddress(addresses, target).Some? ==> exists p :: p in addresses && p.addr == SourceAddress(addresses, target).value
  {
    PickSourceSound(addresses, target);
    var p := PickSource(addresses, target);
    if p.Some? {
      assert p.value in addresses && p.value.addr == SourceAddress(addresses, target).value;
    }
  }

  function RequestFor(mac: Mac, source: Addr, target: Addr): Packet {
    Packet(true, Request, mac, Some(source), ZERO_MAC, Some(target))
  }

  // ---------------------------------------------------------------- reception

  function WithAddress(a: Addr): Prefix -> bool {
    (p: Prefix) => p.addr == a
  }

  /** How many of our prefixes carry the requested address. */
  function Matching(addresses: seq<Prefix>, a: Addr): nat {
    |Filter(addresses, WithAddress(a))|
  }

  /** A request that teaches us its sender: for one of our addresses, answerable, and with a sender that parses. */
  predicate AcceptsRequest(addresses: seq<Prefix>, macs: MacTable, p: Packet) {
    && p.ethernet && p.operation == Request && p.dstProt.Some? && p.srcProt.Some?
    && Matching(addresses, p.dstProt.value) > 0
    && Reachable(macs, p.srcHw)
  }

  /** A reply that teaches us its sender: addressed to our hardware address and with a sender that parses. */
  predicate AcceptsReply(mac: Mac, p: Packet) {
    p.ethernet && p.operation == Reply && p.dstHw == mac && p.srcProt.Some?
  }

  function AfterPacket(t: Table, mac: Mac, addresses: seq<Prefix>, macs: MacTable, p: Packet, now: Time): Table {
    if AcceptsRequest(addresses, macs, p) || AcceptsReply(mac, p) then Learn(t, p.srcProt.value, p.srcHw, now) else t
  }

  function ReplyTo(p: Packet, mac: Mac): Packet {
    Packet(p.ethernet, Reply, mac, p.dstProt, p.srcHw, p.srcProt)
  }

  /** One reply for each of our prefixes that carries the requested address. */
  function RepliesTo(mac: Mac, addresses: seq<Prefix>, macs: MacTable, p: Packet): seq<Packet> {
    if AcceptsRequest(addresses, macs, p) then seq(Matching(addresses, p.dstProt.value), _ => ReplyTo(p, mac)) else []
  }

  lemma {:induction false} OverwriteTwice(t: Table, e: ArpEntry)
    ensures Overwrite(Overwrite(t, e), e) == Overwrite(t, e)
  {
    if t != [] {
      var o := Overwrite(t[1..], e);
      var head := if t[0].addr == e.addr && t[0].mac == e.mac then e else t[0];
      assert ([head] + o)[1..] == o;
      OverwriteTwice(t[1..], e);
    }
  }

  lemma {:induction false} OverwriteAbsent(t: Table, e: ArpEntry)
    requires forall x :: x in t ==> x.addr != e.addr
    ensures Overwrite(t + [e], e) == t + [e]
  {
    if t != [] {
      OverwriteAbsent(t[1..], e);
      assert (t + [e])[1..] == t[1..] + [e];
    } else {
      assert t + [e] == [e];
    }
  }

  /** Learning the same binding twice at one time is learning it once. */
  lemma LearnTwice(t: Table, a: Addr, mac: Mac, now: Time)
    requires Valid(t)
    ensures Learn(Learn(t, a, mac, now), a, mac, now) == Learn(t, a, mac, now)
  {
    var t' := Learn(t, a, mac, now);
    LearnFinds(t, a, mac, now, a);
    FindIsMember(t, a);
    if Binds(t, a, mac) {
      assert SixBytes(mac) == mac;
      OverwriteTwice(t, ArpEntry(a, mac, Some(now + LIFETIME), Find(t, a).value.permanent, false));
    } else {
      var e := ArpEntry(a, SixBytes(mac), Some(now + LIFETIME), false, false);
      FilterMembers(t, Elsewhere(a));
      if Binds(t', a, mac) {
        OverwriteAbsent(Without(t, a), e);
      } else {
        FilterAppend(Without(t, a), [e], Elsewhere(a));
        FilterIdentity(Without(t, a), Elsewhere(a));
      }
    }
  }
}
