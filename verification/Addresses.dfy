/** Network addresses and the address arithmetic of GetMacFor: which of our prefixes is the source of a request,
    which address of a prefix is its directed broadcast, and which Ethernet address a multicast group maps to. */
module Addresses {
  import opened Bits
  import opened Sequences

  /** A hardware address as the program holds it: a byte slice of any length. */
  type Mac = seq<Byte>

  const BROADCAST: Mac := [0xFF, 0xFF, 0xFF, 0xFF, 0xFF, 0xFF]

  /** The all-zero address under which default destinations are entered in the MAC table. */
  const CONTROLLER: Mac := [0, 0, 0, 0, 0, 0]

  /** A valid netip.Addr without a zone; V6 holds the upper and lower halves. */
  datatype Addr = V4(ip: bv32) | V6(hi: bv64, lo: bv64)

  function BitLen(a: Addr): nat {
    if a.V4? then 32 else 128
  }

  datatype CIDR = CIDR(addr: Addr, bits: nat)

  /** A valid netip.Prefix; as in the library its address keeps the host bits. */
  type Prefix = p: CIDR | p.bits <= BitLen(p.addr) witness CIDR(V4(0), 0)

  function HostMask64(n: nat): bv64
    requires n <= 64
  {
    if n == 0 then 0 else (HostMask64(n - 1) << 1) | 1
  }

  predicate Agree64(a: bv64, b: bv64, mask: bv64) {
    (a ^ b) & !mask == 0
  }

  /** Does the prefix contain the address, that is, do they agree outside the host bits? Never across families. */
  predicate Contains(p: Prefix, a: Addr) {
    if p.addr.V4? && a.V4? then Agree32(p.addr.ip, a.ip, HostMask(32 - p.bits))
    else if p.addr.V6? && a.V6? then
      if p.bits <= 64 then Agree64(p.addr.hi, a.hi, HostMask64(64 - p.bits))
      else p.addr.hi == a.hi && Agree64(p.addr.lo, a.lo, HostMask64(128 - p.bits))
    else false
  }

  lemma Agree64Itself(a: bv64, mask: bv64)
    ensures Agree64(a, a, mask)
  {
  }

  lemma ContainsItself(p: Prefix)
    ensures Contains(p, p.addr)
  {
    match p.addr
    case V4(x) => Agree32Itself(x, HostMask(32 - p.bits));
    case V6(xh, xl) =>
      if p.bits <= 64 {
        Agree64Itself(xh, HostMask64(64 - p.bits));
      } else {
        Agree64Itself(xl, HostMask64(128 - p.bits));
      }
  }

  // ---------------------------------------------------------------- what a prefix contains

  /** The prefix's address with every host bit clear. */
  function NetworkOf(p: Prefix): bv32
    requires p.addr.V4?
  {
    p.addr.ip & !HostMask(32 - p.bits)
  }

  /** An IPv4 prefix contains the addresses at most 2^n - 1 above its first and no others, n the number of host bits; in
      32-bit arithmetic an address below the first is further above it. */
  lemma ContainsIffInRun(p: Prefix, x: bv32)
    requires p.addr.V4?
    ensures Contains(p, V4(x)) <==> x - NetworkOf(p) <= HostMask(32 - p.bits)
  {
    HostMaskIsLow(32 - p.bits);
    AgreeIffNear32(p.addr.ip, x, HostMask(32 - p.bits));
  }

  /** The first is a multiple of 2^n. */
  lemma RunStartsAligned(p: Prefix)
    requires p.addr.V4?
    ensures NetworkOf(p) & HostMask(32 - p.bits) == 0
  {
    UpperPartIsAligned(p.addr.ip, HostMask(32 - p.bits));
  }

  lemma NextMask(mask: bv64)
    requires mask & (mask + 1) == 0
    ensures ((mask << 1) | 1) & (((mask << 1) | 1) + 1) == 0
    ensures ((mask << 1) | 1) + 1 == (mask + 1) + (mask + 1)
  {
  }

  /** A run without host bits has one address, and every further host bit doubles their number, to all at 64; all ones of
      the mask are below all of its zeros. */
  lemma {:induction false} HostMask64Doubles(n: nat)
    requires n <= 64
    ensures HostMask64(0) + 1 == 1
    ensures n > 0 ==> HostMask64(n) + 1 == (HostMask64(n - 1) + 1) + (HostMask64(n - 1) + 1)
    ensures HostMask64(n) & (HostMask64(n) + 1) == 0
  {
    if n > 0 {
      HostMask64Doubles(n - 1);
      NextMask(HostMask64(n - 1));
    }
  }

  lemma SameUpperPart64(a: bv64, x: bv64, mask: bv64)
    requires Agree64(a, x, mask)
    ensures a & !mask == x & !mask
  {
  }

  lemma LowerPart64(x: bv64, mask: bv64)
    ensures x - (x & !mask) <= mask
  {
  }

  lemma AgreeIsNear64(a: bv64, x: bv64, mask: bv64)
    requires a & !mask == x & !mask
    ensures x - (a & !mask) <= mask
  {
    LowerPart64(x, mask);
  }

  lemma NearAgrees64(a: bv64, x: bv64, mask: bv64)
    requires mask & (mask + 1) == 0
    requires x - (a & !mask) <= mask
    ensures Agree64(a, x, mask)
  {
  }

  lemma AgreeIffNear64(a: bv64, x: bv64, mask: bv64)
    requires mask & (mask + 1) == 0
    ensures Agree64(a, x, mask) <==> x - (a & !mask) <= mask
  {
    if Agree64(a, x, mask) {
      SameUpperPart64(a, x, mask);
      AgreeIsNear64(a, x, mask);
    }
    if x - (a & !mask) <= mask {
      NearAgrees64(a, x, mask);
    }
  }

  /** Is the number one of the 2^n that start at the other with its n low bits cleared? */
  predicate InRun64(a: bv64, x: bv64, n: nat)
    requires n <= 64
  {
    x - (a & !HostMask64(n)) <= HostMask64(n)
  }

  lemma AgreeIffInRun64(a: bv64, x: bv64, n: nat)
    requires n <= 64
    ensures Agree64(a, x, HostMask64(n)) <==> InRun64(a, x, n)
  {
    HostMask64Doubles(n);
    AgreeIffNear64(a, x, HostMask64(n));
  }

  /** So does an IPv6 prefix, over the halves: with 64 host bits or more the upper half is in the run and the lower one
      is free, with fewer the upper half is the same and the lower one in the run. */
  lemma ContainsIffInRun6(p: Prefix, hi: bv64, lo: bv64)
    requires p.addr.V6?
    ensures Contains(p, V6(hi, lo)) <==>
      if p.bits <= 64 then InRun64(p.addr.hi, hi, 64 - p.bits)
      else hi == p.addr.hi && InRun64(p.addr.lo, lo, 128 - p.bits)
  {
    if p.bits <= 64 {
      AgreeIffInRun64(p.addr.hi, hi, 64 - p.bits);
    } else {
      AgreeIffInRun64(p.addr.lo, lo, 128 - p.bits);
    }
  }

  // ---------------------------------------------------------------- source prefix

  function Covering(target: Addr): Prefix -> bool {
    (p: Prefix) => Contains(p, target)
  }

  function OfFamily(target: Addr): Prefix -> bool {
    (p: Prefix) => p.addr.V4? == target.V4?
  }

  /** The first prefix that contains the target, otherwise the last prefix of its family, otherwise none. */
  function PickSource(addresses: seq<Prefix>, target: Addr): Option<Prefix> {
    var covering := Filter(addresses, Covering(target));
    var family := Filter(addresses, OfFamily(target));
    if covering != [] then Some(covering[0])
    else if family != [] then Some(family[|family| - 1])
    else None
  }

  lemma FilterPrefix(s: seq<Prefix>, n: nat, keep: Prefix -> bool)
    requires n < |s|
    ensures Filter(s[..n + 1], keep) == Filter(s[..n], keep) + (if keep(s[n]) then [s[n]] else [])
  {
    assert s[..n + 1] == s[..n] + [s[n]];
    FilterAppend(s[..n], [s[n]], keep);
  }

  lemma FirstKept(s: seq<Prefix>, n: nat, keep: Prefix -> bool)
    requires n < |s| && keep(s[n]) && Filter(s[..n], keep) == []
    ensures Filter(s, keep) != [] && Filter(s, keep)[0] == s[n]
  {
    assert s == s[..n] + s[n..];
    FilterAppend(s[..n], s[n..], keep);
  }

  /** The loop over the interface's addresses, with its early exit and its overwritten fallback. */
  method ChooseSource(addresses: seq<Prefix>, target: Addr) returns (chosen: Option<Prefix>)
    ensures chosen == PickSource(addresses, target)
  {
    chosen := None;
    var n := 0;
    while n < |addresses|
      invariant 0 <= n <= |addresses|
      invariant Filter(addresses[..n], Covering(target)) == []
      invariant var family := Filter(addresses[..n], OfFamily(target));
        chosen == if family == [] then None else Some(family[|family| - 1])
    {
      var prefix := addresses[n];
      FilterPrefix(addresses, n, Covering(target));
      FilterPrefix(addresses, n, OfFamily(target));
      if Contains(prefix, target) {
        FirstKept(addresses, n, Covering(target));
        return Some(prefix);
      } else if prefix.addr.V4? == target.V4? {
        chosen := Some(prefix);
      }
      n := n + 1;
    }
    assert addresses[..n] == addresses;
  }

  /** The first prefix that contains the target is the choice. */
  lemma FirstCoveringIsPicked(addresses: seq<Prefix>, target: Addr, k: nat)
    requires k < |addresses| && Contains(addresses[k], target)
    requires forall j :: 0 <= j < k ==> !Contains(addresses[j], target)
    ensures PickSource(addresses, target) == Some(addresses[k])
  {
    FilterNone(addresses[..k], Covering(target));
    FirstKept(addresses, k, Covering(target));
  }

  /** Where none does, the last prefix of the target's family is. */
  lemma LastOfFamilyIsPicked(addresses: seq<Prefix>, target: Addr, k: nat)
    requires k < |addresses| && addresses[k].addr.V4? == target.V4?
    requires forall j :: 0 <= j < |addresses| ==> !Contains(addresses[j], target)
    requires forall j :: k < j < |addresses| ==> addresses[j].addr.V4? != target.V4?
    ensures PickSource(addresses, target) == Some(addresses[k])
  {
    FilterNone(addresses, Covering(target));
    FilterPrefix(addresses, k, OfFamily(target));
    FilterNone(addresses[k + 1..], OfFamily(target));
    FilterAppend(addresses[..k + 1], addresses[k + 1..], OfFamily(target));
    assert addresses[..k + 1] + addresses[k + 1..] == addresses;
  }

  /** A chosen source is one of our own prefixes and of the target's family; there is one as soon as any of our
      prefixes is of that family; and it contains the target as soon as any of them does. */
  lemma PickSourceSound(addresses: seq<Prefix>, target: Addr)
    ensures var r := PickSource(addresses, target);
      && (r.Some? ==> r.value in addresses && r.value.addr.V4? == target.V4?)
      && (r.Some? <==> exists p :: p in addresses && p.addr.V4? == target.V4?)
      && ((exists p :: p in addresses && Contains(p, target)) ==> r.Some? && Contains(r.value, target))
  {
    FilterMembers(addresses, Covering(target));
    FilterMembers(addresses, OfFamily(target));
    var covering := Filter(addresses, Covering(target));
    var family := Filter(addresses, OfFamily(target));
    if covering != [] {
      assert covering[0] in covering;
    }
    if family != [] {
      assert family[|family| - 1] in family;
    }
    forall p | p in addresses && p.addr.V4? == target.V4? ensures family != [] {
      assert p in family;
    }
    forall p | p in addresses && Contains(p, target) ensures covering != [] {
      assert p in covering;
    }
  }

  // ---------------------------------------------------------------- directed broadcast

  /** The prefix's address with every host bit set. */
  function BroadcastOf(p: Prefix): bv32
    requires p.addr.V4?
  {
    Directed(p.addr.ip, p.bits)
  }

  /** Address OR (2^hostBits - 1) lies in the prefix. */
  lemma BroadcastIsMember(p: Prefix)
    requires p.addr.V4?
    ensures Contains(p, V4(BroadcastOf(p)))
  {
    OrMaskAgrees(p.addr.ip, HostMask(32 - p.bits));
  }

  /** It is the prefix's greatest member: the directed broadcast of section 4.2.2.11 of RFC 1812. */
  lemma BroadcastIsGreatest(p: Prefix, x: bv32)
    requires p.addr.V4? && Contains(p, V4(x))
    ensures x <= BroadcastOf(p)
  {
    OrMaskIsGreatest(p.addr.ip, x, HostMask(32 - p.bits));
  }

  /** Every address of a prefix gives the same broadcast address. */
  lemma BroadcastIsCommon(p: Prefix, x: bv32)
    requires p.addr.V4? && Contains(p, V4(x))
    ensures x | HostMask(32 - p.bits) == BroadcastOf(p)
  {
    OrMaskIsCommon(p.addr.ip, x, HostMask(32 - p.bits));
  }

  /** GetMacFor's test: is the address the directed broadcast of the chosen prefix? The program first asks whether the
      prefix contains its own address, which a prefix always does. */
  method IsDirectedBroadcast(ifcePrefix: Prefix, addr: bv32) returns (broadcast: bool)
    ensures broadcast <==> ifcePrefix.addr.V4? && addr == BroadcastOf(ifcePrefix)
  {
    ContainsItself(ifcePrefix);
    if !Contains(ifcePrefix, ifcePrefix.addr) {
      return false;
    }
    match ifcePrefix.addr
    case V4(ip) =>
      var broadcastAddr := DirectedBroadcast(ip, ifcePrefix.bits);
      return addr == broadcastAddr;
    case V6(_, _) =>
      return false;
  }

  // ---------------------------------------------------------------- multicast

  predicate IsMulticast4(ip: bv32) {
    ip >> 28 == 0xE
  }

  /** An IPv4-mapped IPv6 address is judged as the IPv4 address it carries. */
  predicate IsMulticast(a: Addr) {
    match a
    case V4(ip) => IsMulticast4(ip)
    case V6(hi, lo) =>
      if hi == 0 && lo >> 32 == 0xFFFF then IsMulticast4((lo & 0xFFFF_FFFF) as bv32) else hi >> 56 == 0xFF
  }

  /** The low 23 bits as the program assembles them from the last three octets. */
  function Lower23(ip: bv32): bv32 {
    ((Octet(ip, 1) as bv32 << 16) | (Octet(ip, 2) as bv32 << 8) | (Octet(ip, 3) as bv32)) & 0x7F_FFFF
  }

  function ByteOf(o: Octet8): Byte {
    o as int
  }

  /** The last three octets of a word, as bytes. */
  function Low3(w: bv32): seq<Byte> {
    [ByteOf(Octet(w, 1)), ByteOf(Octet(w, 2)), ByteOf(Octet(w, 3))]
  }

  /** The Ethernet address of a group: section 6.4 of RFC 1112 and section 7 of RFC 2464. */
  function MulticastMac(a: Addr): Mac {
    match a
    case V4(ip) => Multicast4Mac(Lower23(ip))
    case V6(_, lo) => Multicast6Mac((lo & 0xFFFF_FFFF) as bv32)
  }

  function Multicast4Mac(lower23: bv32): Mac {
    [0x01, 0x00, 0x5E] + Low3(lower23)
  }

  function Multicast6Mac(low: bv32): Mac {
    [0x33, 0x33, ByteOf(Octet(low, 0))] + Low3(low)
  }

  /** The groups of IPv4 are 224.0.0.0 to 239.255.255.255. */
  lemma MulticastRange4(ip: bv32)
    ensures IsMulticast(V4(ip)) <==> 0xE000_0000 <= ip <= 0xEFFF_FFFF
  {
  }

  /** Those of IPv6 are all addresses from ff00:: on, and of the IPv4 addresses written as IPv6 ones the groups. */
  lemma MulticastRange6(hi: bv64, lo: bv64)
    ensures IsMulticast(V6(hi, lo)) <==>
      || hi >= 0xFF00_0000_0000_0000
      || (hi == 0 && 0xFFFF_E000_0000 <= lo <= 0xFFFF_EFFF_FFFF)
  {
  }

  /** Big-endian reading of three bytes. */
  function Number3(a: Byte, b: Byte, c: Byte): nat {
    a * 0x1_0000 + b * 0x100 + c
  }

  /** An IPv4 group has the Ethernet address 01:00:5E followed by the group's low 23 bits as a 24-bit number. */
  lemma Multicast4MacIs(ip: bv32)
    ensures var r := MulticastMac(V4(ip));
      && |r| == 6
      && r[0] == 0x01 && r[1] == 0x00 && r[2] == 0x5E
      && Number3(r[3], r[4], r[5]) == (ip & 0x7F_FFFF) as int
  {
    Lower23IsMasked(ip);
    MaskedHasNoTop(ip);
    OctetsAreDigits(Lower23(ip));
  }

  lemma Multicast6Digits(low: bv32)
    ensures var r := Multicast6Mac(low);
      && |r| == 6
      && r[0] == 0x33 && r[1] == 0x33
      && r[2] * 0x100_0000 + Number3(r[3], r[4], r[5]) == low as int
  {
    OctetsAreDigits(low);
  }

  lemma LowWord(lo: bv64, low: bv32)
    requires low as bv64 == lo & 0xFFFF_FFFF
    ensures (lo & 0xFFFF_FFFF) as bv32 == low
  {
  }

  /** An IPv6 group has the Ethernet address 33:33 followed by the group's low 32 bits as a 32-bit number. */
  lemma Multicast6MacIs(hi: bv64, lo: bv64, low: bv32)
    requires low as bv64 == lo & 0xFFFF_FFFF
    ensures var r := MulticastMac(V6(hi, lo));
      && |r| == 6
      && r[0] == 0x33 && r[1] == 0x33
      && r[2] * 0x100_0000 + Number3(r[3], r[4], r[5]) == low as int
  {
    LowWord(lo, low);
    assert MulticastMac(V6(hi, lo)) == Multicast6Mac(low);
    Multicast6Digits(low);
  }

  lemma ByteOfInjective(a: Octet8, b: Octet8)
    requires ByteOf(a) == ByteOf(b)
    ensures a == b
  {
    ByteOfBack(a, ByteOf(b));
    ByteOfBack(b, ByteOf(b));
  }

  lemma ByteOfBack(o: Octet8, n: Byte)
    requires o as int == n
    ensures n as bv8 == o
  {
  }

  lemma OctetsDetermine(x: bv32, y: bv32)
    requires Octet(x, 0) == Octet(y, 0) && Octet(x, 1) == Octet(y, 1) && Octet(x, 2) == Octet(y, 2) && Octet(x, 3) == Octet(y, 3)
    ensures x == y
  {
    WordOfOctets(x);
    WordOfOctets(y);
  }

  lemma Lower23IsMasked(ip: bv32)
    ensures Lower23(ip) == ip & 0x7F_FFFF
  {
  }

  lemma MaskedHasNoTop(ip: bv32)
    ensures Octet(ip & 0x7F_FFFF, 0) == 0
  {
  }

  lemma SameLow3(p: bv32, q: bv32)
    requires Octet(p, 0) == Octet(q, 0) && Low3(p) == Low3(q)
    ensures p == q
  {
    var b, c := Low3(p), Low3(q);
    assert b[0] == c[0] && b[1] == c[1] && b[2] == c[2];
    ByteOfInjective(Octet(p, 1), Octet(q, 1));
    ByteOfInjective(Octet(p, 2), Octet(q, 2));
    ByteOfInjective(Octet(p, 3), Octet(q, 3));
    OctetsDetermine(p, q);
  }

  lemma Multicast4MacInjective(p: bv32, q: bv32)
    requires Octet(p, 0) == Octet(q, 0) && Multicast4Mac(p) == Multicast4Mac(q)
    ensures p == q
  {
    assert Multicast4Mac(p)[3..] == Low3(p) && Multicast4Mac(q)[3..] == Low3(q);
    SameLow3(p, q);
  }

  lemma Multicast6MacInjective(p: bv32, q: bv32)
    requires Multicast6Mac(p) == Multicast6Mac(q)
    ensures p == q
  {
    assert Multicast6Mac(p)[3..] == Low3(p) && Multicast6Mac(q)[3..] == Low3(q);
    assert Multicast6Mac(p)[2] == ByteOf(Octet(p, 0)) && Multicast6Mac(q)[2] == ByteOf(Octet(q, 0));
    ByteOfInjective(Octet(p, 0), Octet(q, 0));
    SameLow3(p, q);
  }

  /** Two IPv4 groups share an Ethernet address exactly when their low 23 bits agree. */
  lemma Multicast4SharesMac(x: bv32, y: bv32)
    ensures MulticastMac(V4(x)) == MulticastMac(V4(y)) <==> x & 0x7F_FFFF == y & 0x7F_FFFF
  {
    Lower23IsMasked(x);
    Lower23IsMasked(y);
    MaskedHasNoTop(x);
    MaskedHasNoTop(y);
    if Multicast4Mac(x & 0x7F_FFFF) == Multicast4Mac(y & 0x7F_FFFF) {
      Multicast4MacInjective(x & 0x7F_FFFF, y & 0x7F_FFFF);
    }
  }

  /** Two IPv6 groups share an Ethernet address exactly when their last four octets agree. */
  lemma Multicast6SharesMac(xh: bv64, xl: bv64, yh: bv64, yl: bv64)
    ensures MulticastMac(V6(xh, xl)) == MulticastMac(V6(yh, yl)) <==> xl & 0xFFFF_FFFF == yl & 0xFFFF_FFFF
  {
    var p, q := (xl & 0xFFFF_FFFF) as bv32, (yl & 0xFFFF_FFFF) as bv32;
    LowHalf(xl, yl);
    if Multicast6Mac(p) == Multicast6Mac(q) {
      Multicast6MacInjective(p, q);
    }
  }

  lemma LowHalf(x: bv64, y: bv64)
    ensures (x & 0xFFFF_FFFF) as bv32 == (y & 0xFFFF_FFFF) as bv32 <==> x & 0xFFFF_FFFF == y & 0xFFFF_FFFF
  {
  }

  /** No group of one family shares an Ethernet address with a group of the other. */
  lemma MulticastFamiliesApart(x: bv32, hi: bv64, lo: bv64)
    ensures MulticastMac(V4(x)) != MulticastMac(V6(hi, lo))
  {
    assert MulticastMac(V4(x))[0] == 0x01;
    assert MulticastMac(V6(hi, lo))[0] == 0x33;
  }

  /** The k-th of the groups that fold onto the Ethernet address of g. */
  function FoldedGroup(g: bv32, k: bv5): bv32 {
    0xE000_0000 | ((k as bv32) << 23) | (g & 0x7F_FFFF)
  }

  function FoldIndex(g: bv32): bv5 {
    ((g >> 23) & 0x1F) as bv5
  }

  lemma FoldedGroupShares(g: bv32, k: bv5)
    ensures IsMulticast4(FoldedGroup(g, k))
    ensures FoldIndex(FoldedGroup(g, k)) == k
    ensures MulticastMac(V4(FoldedGroup(g, k))) == MulticastMac(V4(g))
  {
    assert FoldedGroup(g, k) & 0x7F_FFFF == g & 0x7F_FFFF;
    Multicast4SharesMac(FoldedGroup(g, k), g);
  }

  lemma SharingGroupIsFolded(g: bv32, x: bv32)
    requires IsMulticast4(x) && x & 0x7F_FFFF == g & 0x7F_FFFF
    ensures x == FoldedGroup(g, FoldIndex(x))
  {
  }

  /** Which groups share the Ethernet address of g: exactly the folded ones, one for each of the 32 five-bit values. */
  lemma ExactlyThirtyTwoGroupsFold(g: bv32, x: bv32)
    ensures IsMulticast4(x) && MulticastMac(V4(x)) == MulticastMac(V4(g)) <==> exists k: bv5 :: x == FoldedGroup(g, k)
    ensures forall j: bv5, k: bv5 :: FoldedGroup(g, j) == FoldedGroup(g, k) ==> j == k
  {
    Multicast4SharesMac(x, g);
    if IsMulticast4(x) && MulticastMac(V4(x)) == MulticastMac(V4(g)) {
      SharingGroupIsFolded(g, x);
    }
    forall k: bv5 ensures FoldIndex(FoldedGroup(g, k)) == k && (x == FoldedGroup(g, k) ==> IsMulticast4(x) && MulticastMac(V4(x)) == MulticastMac(V4(g))) {
      FoldedGroupShares(g, k);
    }
  }

  // ---------------------------------------------------------------- six-byte copies

  /** copy into a fresh six-byte slice: a longer address loses its tail, a shorter one is padded with zeros. */
  function SixBytes(mac: Mac): (r: Mac)
    ensures |r| == 6
    ensures forall k :: 0 <= k < 6 ==> r[k] == if k < |mac| then mac[k] else 0
    ensures |mac| == 6 ==> r == mac
  {
    if |mac| >= 6 then mac[..6] else mac + seq(6 - |mac|, _ => 0)
  }
}
