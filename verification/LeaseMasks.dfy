/**
 Which netmasks the lease computation is right for.  Its own check looks at a sum
 over octets, so masks with a hole (255.0.255.255, 255.255.255.5) get past it.
 */
module LeaseMasks {
  import opened Wrappers
  import opened Bits
  import opened Ipv4
  import opened Lease

  /** Whatever the addresses, an accepted range keeps to the AP's subnet. */
  ghost predicate KeepsLeasesInside(mask: Word) {
    forall ap: Word, gateway: Word, requested: Word ::
      LeaseFor(mask, ap, gateway, requested).Success? ==>
        Safe(mask, ap, gateway, LeaseFor(mask, ap, gateway, requested).value)
  }

  /** Among the masks the octet sum lets through, the contiguous ones are exactly those that are safe. */
  lemma SafeMasksAreTheContiguousOnes(subnet: Octets)
    requires 24 <= LengthOfMask(subnet) <= 28
    ensures KeepsLeasesInside(HostOrder(subnet)) <==> Contiguous(HostOrder(subnet))
  {
    var mask := HostOrder(subnet);
    if Contiguous(mask) {
      var n: nat :| n <= 32 && mask == PrefixMask(n);
      LengthOfPrefixMask(subnet, n);
      forall ap: Word, gateway: Word, requested: Word | LeaseFor(mask, ap, gateway, requested).Success?
        ensures Safe(mask, ap, gateway, LeaseFor(mask, ap, gateway, requested).value)
      {
        LeaseSafety(n, ap, gateway, requested, LeaseFor(mask, ap, gateway, requested).value);
      }
    } else {
      assert mask > 0 by {
        assert PrefixMask(0) == 0 by {
          Pow2Values();
        }
      }
      var requested := EscapingRequest(mask);
    }
  }

  /** Safety for a whole configuration call, from octets to the chosen range. */
  lemma OutcomeIsSafe(localIp: Octets, gateway: Octets, subnet: Octets, requested: Octets)
    requires Contiguous(HostOrder(subnet))
    requires OutcomeFor(localIp, gateway, subnet, requested).Success?
    ensures Safe(HostOrder(subnet), HostOrder(localIp), HostOrder(gateway),
                 OutcomeFor(localIp, gateway, subnet, requested).value)
  {
    SafeMasksAreTheContiguousOnes(subnet);
  }

  /** Configuring again with the start address the DHCP server was given changes nothing. */
  lemma OutcomeIsIdempotent(localIp: Octets, gateway: Octets, subnet: Octets, requested: Octets, chosen: Octets)
    requires Contiguous(HostOrder(subnet))
    requires OutcomeFor(localIp, gateway, subnet, requested).Success?
    requires Dword(chosen) == InMemoryOrder(OutcomeFor(localIp, gateway, subnet, requested)).value.start
    ensures OutcomeFor(localIp, gateway, subnet, chosen) == OutcomeFor(localIp, gateway, subnet, requested)
  {
    var n: nat :| n <= 32 && HostOrder(subnet) == PrefixMask(n);
    LengthOfPrefixMask(subnet, n);
    var l := OutcomeFor(localIp, gateway, subnet, requested).value;
    ReversedDword(chosen);
    SwapIsItsOwnInverse(l.start);
    LeaseIsIdempotent(n, HostOrder(localIp), HostOrder(gateway), HostOrder(requested), l);
  }

  // ----- An ordinary access point under a mask with a hole ---------------------------

  /** The netmask 255.255.255.5 passes for a /24. */
  lemma HolePassesTheCheck()
    ensures LengthOfMask([255, 255, 255, 5]) == 24 && !Contiguous(HostOrder([255, 255, 255, 5]))
  {
    OctetLengthTable(255);
    OctetLengthTable(5);
    var mask := HostOrder([255, 255, 255, 5]);
    if Contiguous(mask) {
      var n: nat :| n <= 32 && mask == PrefixMask(n);
      LengthOfPrefixMask([255, 255, 255, 5], n);
      Pow2Values();
      assert false;
    }
  }

  lemma MaskLastOctet(h: Octets, m: Octet)
    requires 0 < m
    ensures And(HostOrder(h), HostOrder([255, 255, 255, m])) == HostOrder([h[0], h[1], h[2], AndO(h[3], m)])
    ensures And(HostOrder(h), HostOrder([0, 0, 0, m])) == AndO(h[3], m)
  {
    AndOctets(h, [255, 255, 255, m]);
    AndOctets(h, [0, 0, 0, m]);
    AndOctetOnes(h[0]);
    AndOctetOnes(h[1]);
    AndOctetOnes(h[2]);
  }

  lemma SmallAnds()
    ensures And(1, 5) == 1 && And(3, 5) == 1 && And(4, 5) == 4 && And(3, 0xFA) == 2
  {
    AndStep(1, 5);
    AndStep(3, 5);
    AndStep(4, 5);
    AndStep(3, 0xFA);
    AndStep(1, 0x7D);
  }

  /** An address ending in x, under it: network and host part. */
  lemma SplitUnderHole(p: Octet, q: Octet, r: Octet, x: Octet)
    ensures SplitBy(HostOrder([p, q, r, x]), HostOrder([255, 255, 255, 5]))
         == Split(HostOrder([p, q, r, x]), HostOrder([p, q, r, AndO(x, 5)]), AndO(x, 0xFA))
  {
    MaskLastOctet([p, q, r, x], 5);
    MaskLastOctet([p, q, r, x], 0xFA);
    assert Not32(HostOrder([255, 255, 255, 5])) == HostOrder([0, 0, 0, 0xFA]);
  }

  /** A request behind the AP, with room for eleven addresses, is granted where it is. */
  lemma RequestInPlace(mask: Word, ap: Word, requested: Word)
    requires 10 <= Not32(mask) && ap < requested < TWO_TO_THE_32 - 10
    requires SplitBy(requested, mask).network == SplitBy(ap, mask).network
    requires SplitBy(requested, mask).host < Not32(mask) - 10
    ensures LeaseFor(mask, ap, ap, requested) == Success(Lease(requested, requested + 10))
  {
    assert Add32(Not32(mask), -10) == Not32(mask) - 10 && Add32(requested, 10) == requested + 10;
  }

  /**
   An access point p.q.r.1 that is its own gateway, such as 192.168.4.1, under that mask:
   a range from p.q.r.3 is accepted, and its second address, p.q.r.4, lies outside the subnet.
   */
  lemma HoleLetsRangeOut(p: Octet, q: Octet, r: Octet)
    ensures var range := Lease(HostOrder([p, q, r, 3]), HostOrder([p, q, r, 13]));
            && OutcomeFor([p, q, r, 1], [p, q, r, 1], [255, 255, 255, 5], [p, q, r, 3]) == Success(range)
            && Within(HostOrder([p, q, r, 4]), range)
            && !SameSubnet(HostOrder([p, q, r, 4]), HostOrder([p, q, r, 1]), HostOrder([255, 255, 255, 5]))
            && !Safe(HostOrder([255, 255, 255, 5]), HostOrder([p, q, r, 1]), HostOrder([p, q, r, 1]), range)
  {
    HolePassesTheCheck();
    SmallAnds();
    SplitUnderHole(p, q, r, 1);
    SplitUnderHole(p, q, r, 3);
    SplitUnderHole(p, q, r, 4);
    assert Not32(HostOrder([255, 255, 255, 5])) == 0xFA;
    RequestInPlace(HostOrder([255, 255, 255, 5]), HostOrder([p, q, r, 1]), HostOrder([p, q, r, 3]));
  }

  // ----- A request that escapes through a hole in the mask ------------------------

  lemma {:induction false} TrailingZeros(m: nat) returns (k: nat)
    requires m > 0
    ensures Low(m, k) == 0 && Shr(m, k) % 2 == 1
  {
    if m % 2 == 1 {
      k := 0;
    } else {
      k := TrailingZeros(m / 2);
      k := k + 1;
    }
  }

  lemma {:induction false} TrailingOnes(m: nat) returns (z: nat)
    ensures Low(m, z) == Pow2(z) - 1 && Shr(m, z) % 2 == 0
  {
    if m % 2 == 0 {
      z := 0;
    } else {
      z := TrailingOnes(m / 2);
      z := z + 1;
    }
  }

  lemma {:induction false} ShiftedPow2(k: nat)
    ensures Shr(Pow2(k), k) == 1 && Low(Pow2(k), k) == 0
  {
    if k > 0 {
      ShiftedPow2(k - 1);
    }
  }

  lemma {:induction false} ShiftedZero(k: nat)
    ensures Shr(0, k) == 0 && Low(0, k) == 0
  {
    if k > 0 {
      ShiftedZero(k - 1);
    }
  }

  lemma HalveComplement(x: nat, y: nat, p: nat)
    requires x + y == 2 * p - 1
    ensures x / 2 + y / 2 == p - 1 && x % 2 + y % 2 == 1
  {
  }

  /** Complementary words have complementary low bits. */
  lemma {:induction false} LowOfComplement(x: nat, y: nat, w: nat, k: nat)
    requires k <= w && x + y == Pow2(w) - 1
    ensures Low(x, k) + Low(y, k) == Pow2(k) - 1
  {
    if k > 0 {
      HalveComplement(x, y, Pow2(w - 1));
      LowOfComplement(x / 2, y / 2, w - 1, k - 1);
    }
  }

  /** Bit k of x, read by masking with 2^k. */
  lemma AndPow2(k: nat, x: nat)
    ensures And(Pow2(k), x) == 0 <==> Shr(x, k) % 2 == 0
  {
    ShrAnd(Pow2(k), x, k);
    LowAnd(Pow2(k), x, k);
    ShiftedPow2(k);
    ShiftedZero(k);
    AndStep(1, Shr(x, k));
    Recompose(And(Pow2(k), x), k);
  }

  lemma Scaled(u: int, v: int, p: nat)
    requires u <= v
    ensures u * p <= v * p
  {
  }

  /** An odd multiple of p that stays below an even one, and is not the last before it, leaves room for three. */
  lemma OddMultipleLeavesRoom(u: nat, top: nat, p: nat)
    requires p > 0 && u * p < top * p && u % 2 == 1 && top % 2 == 0 && u != top - 1
    ensures u * p + 3 * p <= top * p
  {
    if u >= top {
      Scaled(top, u, p);
      assert false;
    }
    Scaled(u + 3, top, p);
  }

  /** The contiguous masks by their number of zeros. */
  lemma ZerosOfContiguous(k: nat)
    requires k <= 32
    ensures Pow2(k) <= TWO_TO_THE_32 && Contiguous(TWO_TO_THE_32 - Pow2(k))
  {
    assert PrefixMask(32 - k) == TWO_TO_THE_32 - Pow2(k);
  }

  lemma AtMost31TrailingZeros(mask: Word, k: nat)
    requires mask == Shr(mask, k) * Pow2(k) && Shr(mask, k) % 2 == 1
    ensures k < 32
  {
    Scaled(1, Shr(mask, k), Pow2(k));
    if k >= 32 {
      Pow2Values();
      Pow2Monotone(32, k);
      assert false;
    }
  }

  /** A mask with a hole is missing more than its trailing zeros. */
  lemma HoleLeavesRoom(mask: Word, k: nat)
    requires !Contiguous(mask)
    requires Low(mask, k) == 0 && Shr(mask, k) % 2 == 1
    ensures k < 32 && mask + 3 * Pow2(k) <= TWO_TO_THE_32
  {
    Recompose(mask, k);
    AtMost31TrailingZeros(mask, k);
    ZerosOfContiguous(k);
    WholeIsProduct(k);
    HoleArithmetic(Shr(mask, k), Pow2(32 - k), Pow2(k));
  }

  lemma WholeIsProduct(k: nat)
    requires k < 32
    ensures Pow2(32 - k) * Pow2(k) == TWO_TO_THE_32 && Pow2(32 - k) % 2 == 0
  {
    Pow2Adds(32 - k, k);
    Pow2Values();
  }

  lemma HoleArithmetic(u: nat, top: nat, p: nat)
    requires p > 0 && u % 2 == 1 && top % 2 == 0 && u * p < top * p && u * p != top * p - p
    ensures u * p + 3 * p <= top * p
  {
    assert (top - 1) * p == top * p - p;
    OddMultipleLeavesRoom(u, top, p);
  }

  /** A range for the AP 0.0.0.0 that is accepted and yet holds an address of another subnet. */
  ghost predicate Escapes(mask: Word, requested: Word) {
    && LeaseFor(mask, 0, 0, requested).Success?
    && !Safe(mask, 0, 0, LeaseFor(mask, 0, 0, requested).value)
  }

  lemma RangeEscapes(mask: Word, requested: Word, a: Word)
    requires requested != 0 && And(requested, mask) == 0 && And(a, mask) != 0
    requires var l := Place(SplitBy(requested, mask), Not32(mask)); l.start > 0 && Within(a, l)
    ensures Escapes(mask, requested)
  {
  }

  lemma EscapeFromOddMask(mask: Word) returns (requested: Word)
    requires !Contiguous(mask) && mask % 2 == 1
    ensures Escapes(mask, requested)
  {
    var z := TrailingOnes(mask);
    assert 1 <= z < 32 by {
      TrailingOnesBounded(mask, z);
    }
    Pow2Below(z);
    requested := Pow2(z);
    AndPow2(z, mask);
    var a := if Place(SplitBy(requested, mask), Not32(mask)).start == 1 then 1 else Pow2(z) + 1;
    HalvesAnd(a, mask);
    assert a % 2 == 1;
    RangeEscapes(mask, requested, a);
  }

  lemma Pow2Below(k: nat)
    requires 1 <= k < 32
    ensures 2 <= Pow2(k) <= 0x8000_0000 && Pow2(k) % 2 == 0
  {
    Pow2Values();
    Pow2Monotone(1, k);
    Pow2Monotone(k, 31);
  }

  lemma TrailingOnesBounded(mask: Word, z: nat)
    requires !Contiguous(mask) && mask % 2 == 1
    requires Low(mask, z) == Pow2(z) - 1 && Shr(mask, z) % 2 == 0
    ensures 1 <= z < 32
  {
    ZerosOfContiguous(0);
    if z >= 32 {
      Pow2Monotone(32, z);
      assert Pow2(32) == TWO_TO_THE_32 by {
        Pow2Values();
      }
      assert false;
    }
  }

  lemma LowOnesAreHostBits(mask: Word, k: nat)
    requires k < 32 && Low(mask, k) == 0
    ensures And(Pow2(k) - 1, Not32(mask)) == Pow2(k) - 1
  {
    assert Pow2(32) == TWO_TO_THE_32 by {
      Pow2Values();
    }
    AndSymmetric(Pow2(k) - 1, Not32(mask));
    AndLowBits(Not32(mask), k);
    LowOfComplement(mask, Not32(mask), 32, k);
  }

  lemma EscapeFromEvenMask(mask: Word, k: nat) returns (requested: Word)
    requires !Contiguous(mask) && k >= 1
    requires Low(mask, k) == 0 && Shr(mask, k) % 2 == 1
    ensures Escapes(mask, requested)
  {
    HoleLeavesRoom(mask, k);
    Pow2Below(k);
    requested := Pow2(k) - 1;
    AndSymmetric(requested, mask);
    AndLowBits(mask, k);
    AndPow2(k, mask);
    LowOnesAreHostBits(mask, k);
    RangeEscapes(mask, requested, Pow2(k));
  }

  lemma EscapingRequest(mask: Word) returns (requested: Word)
    requires !Contiguous(mask) && mask > 0
    ensures Escapes(mask, requested)
  {
    var k := TrailingZeros(mask);
    if k == 0 {
      requested := EscapeFromOddMask(mask);
    } else {
      requested := EscapeFromEvenMask(mask, k);
    }
  }
}
