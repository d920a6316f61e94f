/** Bit-level IPv4 arithmetic: the host mask of a prefix and the byte-wise loop that sets the host bits. */
module Bits {

  /** A byte of a hardware address or of a packet. */
  type Byte = n: int | 0 <= n < 0x100

  /** An octet of an address, for the bitwise arithmetic. */
  type Octet8 = bv8

  /** byte(1 << k), spelled out. */
  function Bit(k: nat): Octet8
    requires k < 8
  {
    if k == 0 then 1 else if k == 1 then 2 else if k == 2 then 4 else if k == 3 then 8
    else if k == 4 then 16 else if k == 5 then 32 else if k == 6 then 64 else 128
  }

  lemma BitIsShift(k: nat)
    requires k < 8
    ensures Bit(k) == 1 << k
  {
  }

  /** An octet whose n lowest bits are set; none for a negative n, all from 8 on. */
  function OctetMask(n: int): Octet8 {
    if n <= 0 then 0 else if n >= 8 then 0xFF else Bit(n) - 1
  }

  lemma OctetMaskStep(a: Octet8, k: nat)
    requires k < 8
    ensures (a | OctetMask(k)) | Bit(k) == a | OctetMask(k + 1)
  {
  }

  function Octet(ip: bv32, k: nat): Octet8
    requires k < 4
  {
    if k == 0 then (ip >> 24) as bv8
    else if k == 1 then ((ip >> 16) & 0xFF) as bv8
    else if k == 2 then ((ip >> 8) & 0xFF) as bv8
    else (ip & 0xFF) as bv8
  }

  /** Big-endian reading of four octets. */
  function Word(a: Octet8, b: Octet8, c: Octet8, d: Octet8): bv32 {
    ((a as bv32) << 24) | ((b as bv32) << 16) | ((c as bv32) << 8) | (d as bv32)
  }

  lemma WordOfOctets(ip: bv32)
    ensures Word(Octet(ip, 0), Octet(ip, 1), Octet(ip, 2), Octet(ip, 3)) == ip
  {
  }

  lemma WordOfOrs(a: Octet8, b: Octet8, c: Octet8, d: Octet8, e: Octet8, f: Octet8, g: Octet8, h: Octet8)
    ensures Word(a | e, b | f, c | g, d | h) == Word(a, b, c, d) | Word(e, f, g, h)
  {
  }

  /** The n lowest bits of a word set. */
  function HostMask(n: nat): bv32
    requires n <= 32
  {
    Word(OctetMask(n - 24), OctetMask(n - 16), OctetMask(n - 8), OctetMask(n))
  }

  /** The host mask is 2^n - 1, for every number of host bits from none to all 32. */
  lemma HostMaskIsPowerMinusOne(n: nat)
    requires n <= 32
    ensures HostMask(n) == (1 << n) - 1
  {
    if n < 8 {
    } else if n < 16 {
    } else if n < 24 {
    } else if n < 32 {
    } else {
    }
  }

  lemma OrZero(a: Octet8)
    ensures a | 0 == a
  {
  }

  /** The byte-wise loop: set the n lowest bits, one at a time, of four octets held in an array. */
  method SetHostBits(octets: array<Octet8>, n: nat)
    requires octets.Length == 4 && n <= 32
    modifies octets
    ensures forall q :: 0 <= q < 4 ==> octets[q] == old(octets[q]) | OctetMask(n - (24 - 8 * q))
  {
    forall q | 0 <= q < 4 ensures octets[q] == octets[q] | OctetMask(8 * q - 24) {
      OrZero(octets[q]);
    }
    var i := 0;
    while i < n
      invariant 0 <= i <= n
      invariant forall q :: 0 <= q < 4 ==> octets[q] == old(octets[q]) | OctetMask(i - (24 - 8 * q))
    {
      ghost var q, k := 3 - i / 8, i % 8;
      assert i == 24 - 8 * q + k;
      OctetMaskStep(old(octets[q]), k);
      octets[3 - i / 8] := octets[3 - i / 8] | Bit(i % 8);
      i := i + 1;
    }
  }

  /** An address with its host bits set. */
  function Directed(ip: bv32, bits: nat): bv32
    requires bits <= 32
  {
    ip | HostMask(32 - bits)
  }

  /** The broadcast address GetMacFor computes for the interface's address and prefix length. */
  method DirectedBroadcast(ifce: bv32, bits: nat) returns (broadcast: bv32)
    requires bits <= 32
    ensures broadcast == Directed(ifce, bits)
  {
    var octets := new Octet8[4];
    octets[0], octets[1], octets[2], octets[3] := Octet(ifce, 0), Octet(ifce, 1), Octet(ifce, 2), Octet(ifce, 3);
    SetHostBits(octets, 32 - bits);
    broadcast := Word(octets[0], octets[1], octets[2], octets[3]);
    WordOfMasked(ifce, 32 - bits);
  }

  lemma WordOfMasked(ip: bv32, n: nat)
    requires n <= 32
    ensures Word(Octet(ip, 0) | OctetMask(n - 24), Octet(ip, 1) | OctetMask(n - 16),
                 Octet(ip, 2) | OctetMask(n - 8), Octet(ip, 3) | OctetMask(n)) == ip | HostMask(n)
  {
    WordOfOctets(ip);
    WordOfOrs(Octet(ip, 0), Octet(ip, 1), Octet(ip, 2), Octet(ip, 3),
              OctetMask(n - 24), OctetMask(n - 16), OctetMask(n - 8), OctetMask(n));
  }

  /** Do two addresses agree outside the host mask? */
  predicate Agree32(a: bv32, b: bv32, mask: bv32) {
    (a ^ b) & !mask == 0
  }

  lemma Agree32Itself(a: bv32, mask: bv32)
    ensures Agree32(a, a, mask)
  {
  }

  lemma OrMaskAgrees(a: bv32, mask: bv32)
    ensures Agree32(a, a | mask, mask)
  {
  }

  lemma OrMaskIsGreatest(a: bv32, x: bv32, mask: bv32)
    requires Agree32(a, x, mask)
    ensures x <= a | mask
  {
  }

  lemma OrMaskIsCommon(a: bv32, x: bv32, mask: bv32)
    requires Agree32(a, x, mask)
    ensures x | mask == a | mask
  {
  }

  // ---------------------------------------------------------------- what octets and masks mean

  lemma Concatenated(a: Octet8, b: Octet8, c: Octet8, d: Octet8)
    ensures (((a as bv32) << 24) | ((b as bv32) << 16) | ((c as bv32) << 8) | (d as bv32)) as int ==
            (a as int) * 0x100_0000 + (b as int) * 0x1_0000 + (c as int) * 0x100 + (d as int)
  {
  }

  /** The octets of an address are the digits of its number to the base 256, the first the most significant. */
  lemma OctetsAreDigits(ip: bv32)
    ensures ip as int == (Octet(ip, 0) as int) * 0x100_0000 + (Octet(ip, 1) as int) * 0x1_0000 +
                         (Octet(ip, 2) as int) * 0x100 + (Octet(ip, 3) as int)
  {
    WordOfOctets(ip);
    Concatenated(Octet(ip, 0), Octet(ip, 1), Octet(ip, 2), Octet(ip, 3));
  }

  /** All ones of the mask are below all of its zeros. */
  lemma HostMaskIsLow(n: nat)
    requires n <= 32
    ensures HostMask(n) & (HostMask(n) + 1) == 0
  {
    if n < 8 {
    } else if n < 16 {
    } else if n < 24 {
    } else if n < 32 {
    } else {
    }
  }

  lemma SameUpperPart32(a: bv32, x: bv32, mask: bv32)
    requires Agree32(a, x, mask)
    ensures a & !mask == x & !mask
  {
  }

  lemma LowerPart32(x: bv32, mask: bv32)
    ensures x - (x & !mask) <= mask
  {
  }

  lemma AgreeIsNear32(a: bv32, x: bv32, mask: bv32)
    requires a & !mask == x & !mask
    ensures x - (a & !mask) <= mask
  {
    LowerPart32(x, mask);
  }

  lemma NearAgrees32(a: bv32, x: bv32, mask: bv32)
    requires mask & (mask + 1) == 0
    requires x - (a & !mask) <= mask
    ensures Agree32(a, x, mask)
  {
  }

  /** To agree outside a mask of low ones is to be no further above the other's upper part than the mask. */
  lemma AgreeIffNear32(a: bv32, x: bv32, mask: bv32)
    requires mask & (mask + 1) == 0
    ensures Agree32(a, x, mask) <==> x - (a & !mask) <= mask
  {
    if Agree32(a, x, mask) {
      SameUpperPart32(a, x, mask);
      AgreeIsNear32(a, x, mask);
    }
    if x - (a & !mask) <= mask {
      NearAgrees32(a, x, mask);
    }
  }

  lemma UpperPartIsAligned(a: bv32, mask: bv32)
    ensures (a & !mask) & mask == 0
  {
  }
}
