/**
 IPv4 addresses and subnets.

 An address is kept in two forms, as the wrapper does: four octets, octet 0
 first on the wire, and a 32-bit word.  On the little-endian ESP32 the word read
 from memory (`Dword`) has its octets in the opposite order of the number
 addresses are compared by (`HostOrder`); `ByteSwap32` goes between the two.
 */
module Ipv4 {
  import opened Wrappers
  import opened Bits

  type Octet = x: int | 0 <= x < 256

  type Octets = s: seq<Octet> | |s| == 4 witness [0, 0, 0, 0]

  /** A word from its low octet and the octets above it. */
  function Join(high: nat, low: nat): nat {
    high * 256 + low
  }

  function HostOrder(a: Octets): Word {
    Join(Join(Join(a[0], a[1]), a[2]), a[3])
  }

  function Dword(a: Octets): Word {
    Join(Join(Join(a[3], a[2]), a[1]), a[0])
  }

  function OctetsOf(w: Word): (a: Octets)
    ensures HostOrder(a) == w
  {
    var high3 := w / 256;
    var high2 := high3 / 256;
    [high2 / 256, high2 % 256, high3 % 256, w % 256]
  }

  function Shl32(x: Word, k: nat): Word {
    x * Pow2(k) % TWO_TO_THE_32
  }

  /** The word with its four octets in the opposite order. */
  function Reversed(num: Word): Word {
    Dword(OctetsOf(num))
  }

  // ----- Word operations octet by octet -------------------------------------

  function AndO(x: Octet, y: Octet): Octet {
    AndBounds(x, y);
    And(x, y)
  }

  /** The C operator `~`, stored back into an octet. */
  function NotO(x: Octet): Octet {
    255 - x
  }

  function OrO(x: Octet, y: Octet): Octet {
    OrOfOctets(x, y);
    Or(x, y)
  }

  lemma AndThree(a0: nat, a1: Octet, a2: Octet, b0: nat, b1: Octet, b2: Octet)
    ensures And(Join(Join(a0, a1), a2), Join(Join(b0, b1), b2)) == Join(Join(And(a0, b0), And(a1, b1)), And(a2, b2))
  {
    AndOctet(a0, a1, b0, b1);
    AndOctet(Join(a0, a1), a2, Join(b0, b1), b2);
  }

  lemma AndOctets(a: Octets, b: Octets)
    ensures And(HostOrder(a), HostOrder(b)) ==
            HostOrder([AndO(a[0], b[0]), AndO(a[1], b[1]), AndO(a[2], b[2]), AndO(a[3], b[3])])
  {
    AndThree(a[0], a[1], a[2], b[0], b[1], b[2]);
    AndOctet(Join(Join(a[0], a[1]), a[2]), a[3], Join(Join(b[0], b[1]), b[2]), b[3]);
  }

  lemma OrOfOctets(x: Octet, y: Octet)
    ensures Or(x, y) < 256
  {
    Pow2Values();
    OrFits(x, y, 8);
  }

  lemma OrThree(a0: nat, a1: Octet, a2: Octet, b0: nat, b1: Octet, b2: Octet)
    ensures Or(Join(Join(a0, a1), a2), Join(Join(b0, b1), b2)) == Join(Join(Or(a0, b0), Or(a1, b1)), Or(a2, b2))
  {
    OrOfOctets(a1, b1);
    OrOfOctets(a2, b2);
    OrOctet(a0, a1, b0, b1);
    OrOctet(Join(a0, a1), a2, Join(b0, b1), b2);
  }

  lemma OrOctets(a: Octets, b: Octets)
    ensures Or(HostOrder(a), HostOrder(b)) ==
            HostOrder([OrO(a[0], b[0]), OrO(a[1], b[1]), OrO(a[2], b[2]), OrO(a[3], b[3])])
  {
    OrThree(a[0], a[1], a[2], b[0], b[1], b[2]);
    OrOctet(Join(Join(a[0], a[1]), a[2]), a[3], Join(Join(b[0], b[1]), b[2]), b[3]);
  }

  lemma AndOctetOnes(x: Octet)
    ensures And(x, 0xFF) == x
  {
    assert Pow2(8) == 256;
    AndLowBits(x, 8);
    LowOfSmall(x, 8);
  }

  /** The byte-swap macro: four shifted octets, masked and or-ed together. */
  method ByteSwap32(num: Word) returns (r: Word)
    ensures r == Reversed(num)
  {
    SwapByOctets(OctetsOf(num));
    r := Or(Or(Or(And(Shr(num, 24), 0xFF), And(Shl32(num, 8), 0xFF_0000)), And(Shr(num, 8), 0xFF00)),
            And(Shl32(num, 24), 0xFF00_0000));
  }

  lemma SwapByOctets(a: Octets)
    ensures var num := HostOrder(a);
            Or(Or(Or(And(Shr(num, 24), 0xFF), And(Shl32(num, 8), 0xFF_0000)), And(Shr(num, 8), 0xFF00)),
               And(Shl32(num, 24), 0xFF00_0000)) == Dword(a)
  {
    ShiftsRight(a);
    ShiftsLeft(a);
    PickOctets(a);
    OrOctets([0, 0, 0, a[0]], [0, a[2], 0, 0]);
    OrOctets([0, a[2], 0, a[0]], [0, 0, a[1], 0]);
    OrOctets([0, a[2], a[1], a[0]], [a[3], 0, 0, 0]);
  }

  lemma ShiftsRight(a: Octets)
    ensures Shr(HostOrder(a), 24) == HostOrder([0, 0, 0, a[0]])
    ensures Shr(HostOrder(a), 8) == HostOrder([0, a[0], a[1], a[2]])
  {
    var upper, lower := Join(Join(a[0], a[1]), a[2]), Join(Join(a[1], a[2]), a[3]);
    assert Pow2(24) == 0x100_0000 && Pow2(8) == 0x100 by {
      Pow2Values();
    }
    ShiftRightBy(HostOrder(a), 24, a[0], 0x100_0000, lower);
    ShiftRightBy(HostOrder(a), 8, upper, 0x100, a[3]);
  }

  lemma ShiftRightBy(w: Word, k: nat, q: nat, p: nat, r: nat)
    requires p == Pow2(k) && r < p && w == q * p + r
    ensures Shr(w, k) == q
  {
    ShrIsDivision(w, k);
    DivModUnique(w, q, p, r);
  }

  lemma ShiftsLeft(a: Octets)
    ensures Shl32(HostOrder(a), 8) == HostOrder([a[1], a[2], a[3], 0])
    ensures Shl32(HostOrder(a), 24) == HostOrder([a[3], 0, 0, 0])
  {
    Pow2Values();
    ShiftLeftBy(HostOrder(a), 8, 0x100, a[0], HostOrder([a[1], a[2], a[3], 0]));
    ShiftLeftBy(HostOrder(a), 24, 0x100_0000, HostOrder([0, a[0], a[1], a[2]]), HostOrder([a[3], 0, 0, 0]));
  }

  lemma ShiftLeftBy(w: Word, k: nat, p: nat, q: nat, r: Word)
    requires p == Pow2(k) && w * p == q * TWO_TO_THE_32 + r
    ensures Shl32(w, k) == r
  {
    DivModUnique(w * p, q, TWO_TO_THE_32, r);
  }

  lemma PickOctets(a: Octets)
    ensures And(HostOrder([0, 0, 0, a[0]]), 0xFF) == HostOrder([0, 0, 0, a[0]])
    ensures And(HostOrder([a[1], a[2], a[3], 0]), 0xFF_0000) == HostOrder([0, a[2], 0, 0])
    ensures And(HostOrder([0, a[0], a[1], a[2]]), 0xFF00) == HostOrder([0, 0, a[1], 0])
    ensures And(HostOrder([a[3], 0, 0, 0]), 0xFF00_0000) == HostOrder([a[3], 0, 0, 0])
  {
    forall i | 0 <= i < 4
      ensures And(a[i], 0xFF) == a[i]
    {
      AndOctetOnes(a[i]);
    }
    AndOctets([0, 0, 0, a[0]], [0, 0, 0, 0xFF]);
    AndOctets([a[1], a[2], a[3], 0], [0, 0xFF, 0, 0]);
    AndOctets([0, a[0], a[1], a[2]], [0, 0, 0xFF, 0]);
    AndOctets([a[3], 0, 0, 0], [0xFF, 0, 0, 0]);
  }

  lemma HostOrderInjective(a: Octets, b: Octets)
    requires HostOrder(a) == HostOrder(b)
    ensures a == b
  {
    DigitsInjective(a[0], a[1], a[2], a[3], b[0], b[1], b[2], b[3]);
    assert forall i | 0 <= i < 4 :: a[i] == b[i];
  }

  lemma DigitsInjective(a0: Octet, a1: Octet, a2: Octet, a3: Octet, b0: Octet, b1: Octet, b2: Octet, b3: Octet)
    requires Join(Join(Join(a0, a1), a2), a3) == Join(Join(Join(b0, b1), b2), b3)
    ensures a0 == b0 && a1 == b1 && a2 == b2 && a3 == b3
  {
    JoinInjective(Join(Join(a0, a1), a2), a3, Join(Join(b0, b1), b2), b3);
    JoinInjective(Join(a0, a1), a2, Join(b0, b1), b2);
    JoinInjective(a0, a1, b0, b1);
  }

  lemma JoinInjective(h: nat, l: Octet, g: nat, m: Octet)
    requires Join(h, l) == Join(g, m)
    ensures h == g && l == m
  {
  }

  /** A word read from memory, reversed, is the number addresses are compared by. */
  lemma ReversedDword(a: Octets)
    ensures Reversed(Dword(a)) == HostOrder(a)
    ensures Reversed(HostOrder(a)) == Dword(a)
  {
    HostOrderInjective(OctetsOf(HostOrder(a)), a);
    HostOrderInjective(OctetsOf(Dword(a)), [a[3], a[2], a[1], a[0]]);
  }

  lemma SwapIsItsOwnInverse(num: Word)
    ensures Reversed(Reversed(num)) == num
  {
    ReversedDword(OctetsOf(num));
  }

  // ----- Prefixes and masks ---------------------------------------------------

  /** The mask of a /n prefix: n ones, then zeros (section 3.1 of RFC 4632). */
  function PrefixMask(n: nat): (m: Word)
    requires n <= 32
    ensures m == TWO_TO_THE_32 - Pow2(32 - n)
  {
    Pow2Values();
    HighOnesValue(n, 32 - n);
    HighOnes(n, 32 - n)
  }

  ghost predicate Contiguous(mask: Word) {
    exists n: nat :: n <= 32 && mask == PrefixMask(n)
  }

  function NetworkOf(ip: Word, mask: Word): Word {
    AndBounds(ip, mask);
    And(ip, mask)
  }

  lemma OrWordFits(x: Word, y: Word)
    ensures Or(x, y) < TWO_TO_THE_32
  {
    Pow2Values();
    OrFits(x, y, 32);
  }

  function BroadcastOf(ip: Word, mask: Word): Word {
    OrWordFits(ip, Not32(mask));
    Or(ip, Not32(mask))
  }

  predicate SameSubnet(a: Word, b: Word, mask: Word) {
    And(a, mask) == And(b, mask)
  }

  lemma KeepNetwork(n: nat, ip: Word)
    requires n <= 32
    ensures And(ip, PrefixMask(n)) == ip - ip % Pow2(32 - n)
  {
    assert n + (32 - n) == 32 && Pow2(32) == TWO_TO_THE_32 by {
      Pow2Values();
    }
    AndIsMultiple(ip, n, 32 - n);
  }

  lemma KeepHost(n: nat, ip: Word)
    requires n <= 32
    ensures And(ip, Not32(PrefixMask(n))) == ip % Pow2(32 - n)
    ensures Or(ip, Not32(PrefixMask(n))) == ip - ip % Pow2(32 - n) + Pow2(32 - n) - 1
  {
    assert Not32(PrefixMask(n)) == Pow2(32 - n) - 1;
    AndIsRemainder(ip, 32 - n);
    OrIsRoundUp(ip, 32 - n);
  }

  /** What masking computes under a /n mask: rounding to a multiple of 2^(32-n), and the remainder. */
  lemma MaskingIsArithmetic(n: nat, ip: Word)
    requires n <= 32
    ensures And(ip, PrefixMask(n)) == ip - ip % Pow2(32 - n)
    ensures And(ip, Not32(PrefixMask(n))) == ip % Pow2(32 - n)
    ensures Or(ip, Not32(PrefixMask(n))) == ip - ip % Pow2(32 - n) + Pow2(32 - n) - 1
  {
    KeepNetwork(n, ip);
    KeepHost(n, ip);
  }

  lemma SameMultipleIff(x: nat, y: nat, p: nat)
    requires p > 0
    ensures x - x % p == y - y % p <==> y - y % p <= x <= y - y % p + p - 1
  {
    assert x == p * (x / p) + x % p && y == p * (y / p) + y % p;
    if y - y % p <= x <= y - y % p + p - 1 {
      assert x == (y / p) * p + (x - p * (y / p));
      DivModUnique(x, y / p, p, x - p * (y / p));
    }
  }

  /** Section 3.1 of RFC 4632: a prefix covers exactly the addresses from its network to its broadcast address. */
  lemma SubnetIsInterval(mask: Word, ip: Word, a: Word)
    requires Contiguous(mask)
    ensures NetworkOf(ip, mask) <= a <= BroadcastOf(ip, mask) <==> SameSubnet(a, ip, mask)
  {
    var n: nat :| n <= 32 && mask == PrefixMask(n);
    MaskingIsArithmetic(n, ip);
    MaskingIsArithmetic(n, a);
    SameMultipleIff(a, ip, Pow2(32 - n));
  }

  /** A /n prefix spans 2^(32-n) addresses; the last is the all-ones host (section 7 of RFC 919). */
  lemma SubnetSize(n: nat, ip: Word)
    requires n <= 32
    ensures BroadcastOf(ip, PrefixMask(n)) - NetworkOf(ip, PrefixMask(n)) == Pow2(32 - n) - 1
    ensures And(BroadcastOf(ip, PrefixMask(n)), Not32(PrefixMask(n))) == Not32(PrefixMask(n))
  {
    MaskingIsArithmetic(n, ip);
    var bc := BroadcastOf(ip, PrefixMask(n));
    MaskingIsArithmetic(n, bc);
    SameMultipleIff(bc, ip, Pow2(32 - n));
  }

  // ----- The octet loops --------------------------------------------------------

  method CalculateNetworkID(ip: Octets, subnet: Octets) returns (networkID: Octets)
    ensures HostOrder(networkID) == NetworkOf(HostOrder(ip), HostOrder(subnet))
  {
    var octets: seq<Octet> := [0, 0, 0, 0];
    for i := 0 to 4
      invariant |octets| == 4
      invariant forall j | 0 <= j < i :: octets[j] == AndO(subnet[j], ip[j])
    {
      octets := octets[i := AndO(subnet[i], ip[i])];
    }
    networkID := octets;
    NetworkByOctets(ip, subnet, networkID);
  }

  lemma NetworkByOctets(ip: Octets, subnet: Octets, r: Octets)
    requires forall j | 0 <= j < 4 :: r[j] == AndO(subnet[j], ip[j])
    ensures HostOrder(r) == NetworkOf(HostOrder(ip), HostOrder(subnet))
  {
    AndOctets(subnet, ip);
    AndSymmetric(HostOrder(subnet), HostOrder(ip));
    assert r == [AndO(subnet[0], ip[0]), AndO(subnet[1], ip[1]), AndO(subnet[2], ip[2]), AndO(subnet[3], ip[3])];
  }

  method CalculateBroadcast(ip: Octets, subnet: Octets) returns (broadcastIp: Octets)
    ensures HostOrder(broadcastIp) == BroadcastOf(HostOrder(ip), HostOrder(subnet))
  {
    var octets: seq<Octet> := [0, 0, 0, 0];
    for i := 0 to 4
      invariant |octets| == 4
      invariant forall j | 0 <= j < i :: octets[j] == OrO(NotO(subnet[j]), ip[j])
    {
      octets := octets[i := OrO(NotO(subnet[i]), ip[i])];
    }
    broadcastIp := octets;
    BroadcastByOctets(ip, subnet, broadcastIp);
  }

  lemma BroadcastByOctets(ip: Octets, subnet: Octets, r: Octets)
    requires forall j | 0 <= j < 4 :: r[j] == OrO(NotO(subnet[j]), ip[j])
    ensures HostOrder(r) == BroadcastOf(HostOrder(ip), HostOrder(subnet))
  {
    var inverted := [NotO(subnet[0]), NotO(subnet[1]), NotO(subnet[2]), NotO(subnet[3])];
    assert HostOrder(inverted) == Not32(HostOrder(subnet));
    OrOctets(inverted, ip);
    OrSymmetric(HostOrder(inverted), HostOrder(ip));
    assert r == [OrO(inverted[0], ip[0]), OrO(inverted[1], ip[1]), OrO(inverted[2], ip[2]), OrO(inverted[3], ip[3])];
  }

  /** An octet with k leading ones. */
  function OctetMask(k: nat): Octet
    requires k <= 8
  {
    Pow2Values();
    Pow2Monotone(8 - k, 8);
    256 - Pow2(8 - k)
  }

  lemma OctetMaskTable()
    ensures OctetMask(0) == 0x00 && OctetMask(1) == 0x80 && OctetMask(2) == 0xC0
    ensures OctetMask(3) == 0xE0 && OctetMask(4) == 0xF0 && OctetMask(5) == 0xF8
    ensures OctetMask(6) == 0xFC && OctetMask(7) == 0xFE && OctetMask(8) == 0xFF
  {
  }

  /** k when the octet is k >= 1 leading ones; every other octet counts for nothing. */
  ghost function OctetLength(o: Octet): (k: nat)
    ensures k <= 8
    ensures k > 0 ==> o == OctetMask(k)
    ensures k == 0 ==> forall j: nat | 0 < j <= 8 :: o != OctetMask(j)
  {
    if exists j: nat :: 0 < j <= 8 && o == OctetMask(j) then
      var j: nat :| 0 < j <= 8 && o == OctetMask(j);
      j
    else
      0
  }

  ghost function LengthOfMask(a: Octets): (k: nat)
    ensures k <= 32
  {
    OctetLength(a[0]) + OctetLength(a[1]) + OctetLength(a[2]) + OctetLength(a[3])
  }

  lemma OctetLengthTable(o: Octet)
    ensures OctetLength(o) ==
            if o == 0x80 then 1 else if o == 0xC0 then 2 else if o == 0xE0 then 3 else if o == 0xF0 then 4
            else if o == 0xF8 then 5 else if o == 0xFC then 6 else if o == 0xFE then 7 else if o == 0xFF then 8 else 0
  {
    OctetMaskTable();
    var k := OctetLength(o);
    assert k == 0 || k == 1 || k == 2 || k == 3 || k == 4 || k == 5 || k == 6 || k == 7 || k == 8;
  }

  method CalculateSubnetCIDR(subnetMask: Octets) returns (cidr: nat)
    ensures cidr == LengthOfMask(subnetMask) <= 32
  {
    cidr := 0;
    for i := 0 to 4
      invariant cidr == (if i > 0 then OctetLength(subnetMask[0]) else 0) + (if i > 1 then OctetLength(subnetMask[1]) else 0)
                        + (if i > 2 then OctetLength(subnetMask[2]) else 0) + (if i > 3 then OctetLength(subnetMask[3]) else 0)
    {
      OctetLengthTable(subnetMask[i]);
      if subnetMask[i] == 0x80 {
        cidr := cidr + 1;
      } else if subnetMask[i] == 0xC0 {
        cidr := cidr + 2;
      } else if subnetMask[i] == 0xE0 {
        cidr := cidr + 3;
      } else if subnetMask[i] == 0xF0 {
        cidr := cidr + 4;
      } else if subnetMask[i] == 0xF8 {
        cidr := cidr + 5;
      } else if subnetMask[i] == 0xFC {
        cidr := cidr + 6;
      } else if subnetMask[i] == 0xFE {
        cidr := cidr + 7;
      } else if subnetMask[i] == 0xFF {
        cidr := cidr + 8;
      }
    }
  }

  /** How many ones a /n mask has in octet i. */
  function OnesInOctet(n: nat, i: nat): (k: nat)
    ensures k <= 8
  {
    if n <= 8 * i then 0 else if n >= 8 * i + 8 then 8 else n - 8 * i
  }

  lemma ScaledPow2(k: nat)
    ensures Pow2(24 + k) == 0x100_0000 * Pow2(k)
    ensures Pow2(16 + k) == 0x1_0000 * Pow2(k)
    ensures Pow2(8 + k) == 0x100 * Pow2(k)
  {
    Pow2Values();
    Pow2Adds(24, k);
    Pow2Adds(16, k);
    Pow2Adds(8, k);
  }

  lemma PrefixInOctet0(k: nat)
    requires k <= 8
    ensures PrefixMask(k) == HostOrder([OctetMask(k), 0, 0, 0])
  {
    ScaledPow2(8 - k);
  }

  lemma PrefixInOctet1(k: nat)
    requires k <= 8
    ensures PrefixMask(8 + k) == HostOrder([255, OctetMask(k), 0, 0])
  {
    ScaledPow2(8 - k);
  }

  lemma PrefixInOctet2(k: nat)
    requires k <= 8
    ensures PrefixMask(16 + k) == HostOrder([255, 255, OctetMask(k), 0])
  {
    ScaledPow2(8 - k);
  }

  lemma PrefixInOctet3(k: nat)
    requires k <= 8
    ensures PrefixMask(24 + k) == HostOrder([255, 255, 255, OctetMask(k)])
  {
  }

  /** The octets of a /n mask, one by one. */
  function OctetsOfPrefix(n: nat): Octets {
    [OctetMask(OnesInOctet(n, 0)), OctetMask(OnesInOctet(n, 1)), OctetMask(OnesInOctet(n, 2)), OctetMask(OnesInOctet(n, 3))]
  }

  lemma PrefixMaskByOctets(n: nat)
    requires n <= 32
    ensures PrefixMask(n) == HostOrder(OctetsOfPrefix(n))
  {
    assert OctetMask(0) == 0 && OctetMask(8) == 255 by {
      OctetMaskTable();
    }
    if n <= 8 {
      PrefixInOctet0(n);
      assert OctetsOfPrefix(n) == [OctetMask(n), 0, 0, 0];
    } else if n <= 16 {
      PrefixInOctet1(n - 8);
      assert OctetsOfPrefix(n) == [255, OctetMask(n - 8), 0, 0];
    } else if n <= 24 {
      PrefixInOctet2(n - 16);
      assert OctetsOfPrefix(n) == [255, 255, OctetMask(n - 16), 0];
    } else {
      PrefixInOctet3(n - 24);
      assert OctetsOfPrefix(n) == [255, 255, 255, OctetMask(n - 24)];
    }
  }

  lemma LengthOfOctetMask(k: nat)
    requires k <= 8
    ensures OctetLength(OctetMask(k)) == k
  {
    OctetMaskTable();
    OctetLengthTable(OctetMask(k));
    assert k == 0 || k == 1 || k == 2 || k == 3 || k == 4 || k == 5 || k == 6 || k == 7 || k == 8;
  }

  /** The octet sum is the prefix length on every contiguous mask. */
  lemma LengthOfPrefixMask(subnet: Octets, n: nat)
    requires n <= 32 && HostOrder(subnet) == PrefixMask(n)
    ensures LengthOfMask(subnet) == n
  {
    PrefixMaskByOctets(n);
    HostOrderInjective(subnet, OctetsOfPrefix(n));
    LengthOfOctetMask(OnesInOctet(n, 0));
    LengthOfOctetMask(OnesInOctet(n, 1));
    LengthOfOctetMask(OnesInOctet(n, 2));
    LengthOfOctetMask(OnesInOctet(n, 3));
  }
}
