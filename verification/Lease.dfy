/** The address range the soft access point's DHCP server hands out. */
module Lease {
  import opened Wrappers
  import opened Bits
  import opened Ipv4

  datatype LeaseError = BadNetmask | StartOutsideSubnet | ApInsideRange | GatewayInsideRange

  /** First and last address of the range. */
  datatype Lease = Lease(start: Word, end: Word)

  type Outcome = Result<Lease, LeaseError>

  function Add32(x: int, y: int): Word {
    (x + y) % TWO_TO_THE_32
  }

  predicate Within(a: Word, l: Lease) {
    l.start <= a <= l.end
  }

  /** An address together with its network and host parts under the mask. */
  datatype Split = Split(address: Word, network: Word, host: Word)

  function SplitBy(a: Word, mask: Word): Split {
    AndBounds(a, mask);
    AndBounds(a, Not32(mask));
    Split(a, And(a, mask), And(a, Not32(mask)))
  }

  /** The eleven addresses from the wanted one, or from the one after its network address if they would not fit. */
  function Place(wanted: Split, hostMask: Word): Lease {
    var start := if wanted.host >= Add32(hostMask, -10) then Add32(wanted.network, 1) else wanted.address;
    Lease(start, Add32(start, 10))
  }

  function Check(ap: Split, gateway: Split, wanted: Split, lease: Lease): Outcome {
    if ap.network != wanted.network then Failure(StartOutsideSubnet)
    else if Within(ap.address, lease) then Failure(ApInsideRange)
    else if gateway.network == ap.network && Within(gateway.address, lease) then Failure(GatewayInsideRange)
    else Success(lease)
  }

  /** A requested start of 0.0.0.0 means "right after the AP". */
  function Wanted(ap: Word, requested: Word): Word {
    if requested == 0 then Add32(ap, 1) else requested
  }

  /** The range chosen for an access point, in host order. */
  function LeaseFor(mask: Word, ap: Word, gateway: Word, requested: Word): Outcome {
    var wanted := SplitBy(Wanted(ap, requested), mask);
    Check(SplitBy(ap, mask), SplitBy(gateway, mask), wanted, Place(wanted, Not32(mask)))
  }

  ghost function OutcomeFor(localIp: Octets, gateway: Octets, subnet: Octets, requested: Octets): Outcome {
    if !(24 <= LengthOfMask(subnet) <= 28) then Failure(BadNetmask)
    else LeaseFor(HostOrder(subnet), HostOrder(localIp), HostOrder(gateway), HostOrder(requested))
  }

  /** The range as the DHCP server is told it: both ends back in memory order. */
  function InMemoryOrder(r: Outcome): Outcome {
    match r
    case Success(lease) => Success(Lease(Reversed(lease.start), Reversed(lease.end)))
    case Failure(_) => r
  }

  method ToHostOrder(address: Octets) returns (r: Word)
    ensures r == HostOrder(address)
  {
    r := ByteSwap32(Dword(address));
    ReversedDword(address);
  }

  method Masked(a: Word, mask: Word) returns (network: Word, host: Word)
    ensures SplitBy(a, mask) == Split(a, network, host)
  {
    AndBounds(a, mask);
    AndBounds(a, Not32(mask));
    network, host := And(a, mask), And(a, Not32(mask));
  }

  /** The computation as written, on words in host order; the range is adjusted in place. */
  method FitLease(netmask: Word, apIpaddr: Word, gwIpaddr: Word, dhcpLeaseStart: Word) returns (r: Outcome)
    ensures r == LeaseFor(netmask, apIpaddr, gwIpaddr, dhcpLeaseStart)
  {
    var dhcpIpaddr := if dhcpLeaseStart == 0 then Add32(apIpaddr, 1) else dhcpLeaseStart;
    var leaseStartMax := Add32(Not32(netmask), -10);
    var startIp := dhcpIpaddr;
    var endIp := Add32(startIp, 10);
    var apNetwork, _ := Masked(apIpaddr, netmask);
    var dhcpNetwork, dhcpHost := Masked(dhcpIpaddr, netmask);
    if apNetwork != dhcpNetwork {
      return Failure(StartOutsideSubnet);
    }
    if dhcpHost >= leaseStartMax {
      startIp := Add32(dhcpNetwork, 1);
      endIp := Add32(startIp, 10);
    }
    if apIpaddr >= startIp && apIpaddr <= endIp {
      return Failure(ApInsideRange);
    }
    var gwNetwork, _ := Masked(gwIpaddr, netmask);
    var gwInSameSubnet := gwNetwork == apNetwork;
    if gwInSameSubnet && gwIpaddr >= startIp && gwIpaddr <= endIp {
      return Failure(GatewayInsideRange);
    }
    return Success(Lease(startIp, endIp));
  }

  /** Every address goes through its memory word, and so do both ends of the range. */
  method ComputeLease(localIp: Octets, gateway: Octets, subnet: Octets, dhcpLeaseStart: Octets) returns (r: Outcome)
    ensures r == InMemoryOrder(OutcomeFor(localIp, gateway, subnet, dhcpLeaseStart))
  {
    var cidr := CalculateSubnetCIDR(subnet);
    if cidr > 28 || cidr < 24 {
      return Failure(BadNetmask);
    }
    var netmask := ToHostOrder(subnet);
    var apIpaddr := ToHostOrder(localIp);
    var dhcpIpaddr := ToHostOrder(dhcpLeaseStart);
    var gwIpaddr := ToHostOrder(gateway);
    r := FitLease(netmask, apIpaddr, gwIpaddr, dhcpIpaddr);
    if r.Success? {
      var startIp := ByteSwap32(r.value.start);
      var endIp := ByteSwap32(r.value.end);
      r := Success(Lease(startIp, endIp));
    }
  }

  // ----- The same computation in plain arithmetic --------------------------------

  /** Host sizes of the prefixes /24 to /28. */
  predicate HostSize(p: nat) {
    p == 256 || p == 128 || p == 64 || p == 32 || p == 16
  }

  function SplitAt(a: Word, p: nat): Split
    requires HostSize(p)
  {
    Split(a, a - a % p, a % p)
  }

  function LeaseAt(p: nat, ap: Word, gateway: Word, requested: Word): Outcome
    requires HostSize(p)
  {
    var wanted := SplitAt(Wanted(ap, requested), p);
    Check(SplitAt(ap, p), SplitAt(gateway, p), wanted, Place(wanted, p - 1))
  }

  lemma PrefixHostSize(n: nat)
    requires 24 <= n <= 28
    ensures HostSize(Pow2(32 - n)) && Not32(PrefixMask(n)) == Pow2(32 - n) - 1
  {
    Pow2Values();
  }

  lemma SplitByPrefix(n: nat, a: Word)
    requires 24 <= n <= 28
    ensures HostSize(Pow2(32 - n)) && SplitBy(a, PrefixMask(n)) == SplitAt(a, Pow2(32 - n))
  {
    PrefixHostSize(n);
    MaskingIsArithmetic(n, a);
  }

  lemma LeaseIsArithmetic(n: nat, ap: Word, gateway: Word, requested: Word)
    requires 24 <= n <= 28
    ensures HostSize(Pow2(32 - n))
    ensures LeaseFor(PrefixMask(n), ap, gateway, requested) == LeaseAt(Pow2(32 - n), ap, gateway, requested)
  {
    PrefixHostSize(n);
    SplitByPrefix(n, ap);
    SplitByPrefix(n, gateway);
    SplitByPrefix(n, Wanted(ap, requested));
  }

  // ----- What an accepted range guarantees ----------------------------------------

  /** The eleven addresses lie in the AP's subnet, below its broadcast address, clear of the AP and the gateway. */
  ghost predicate Safe(mask: Word, ap: Word, gateway: Word, l: Lease) {
    && l.end == l.start + 10
    && forall a: Word | Within(a, l) ::
         SameSubnet(a, ap, mask) && a < BroadcastOf(ap, mask) && a != ap && a != gateway
  }

  /** A network address with room for p hosts, and one of them. */
  predicate Proper(s: Split, p: nat) {
    s.address == s.network + s.host && s.host < p && s.network + p <= TWO_TO_THE_32
  }

  lemma SplitsProper(p: nat, a: Word, b: Word)
    requires HostSize(p)
    ensures Proper(SplitAt(a, p), p)
    ensures SplitAt(a, p).network == SplitAt(b, p).network
       <==> SplitAt(b, p).network <= a < SplitAt(b, p).network + p
  {
    SameMultipleIff(a, b, p);
  }

  lemma PlaceFits(w: Split, p: nat)
    requires HostSize(p) && Proper(w, p)
    ensures var l := Place(w, p - 1);
            && l.end == l.start + 10
            && w.network <= l.start && l.end < w.network + p - 1
            && l.start == if w.host >= p - 11 then w.network + 1 else w.address
  {
  }

  lemma PlacedInside(p: nat, ap: Word, gateway: Word, requested: Word)
    requires HostSize(p)
    requires LeaseAt(p, ap, gateway, requested).Success?
    ensures var l := LeaseAt(p, ap, gateway, requested).value;
            && l.end == l.start + 10
            && ap - ap % p <= l.start && l.end < ap - ap % p + p - 1
            && !Within(ap, l) && !Within(gateway, l)
  {
    SplitsProper(p, Wanted(ap, requested), ap);
    SplitsProper(p, gateway, ap);
    PlaceFits(SplitAt(Wanted(ap, requested), p), p);
  }

  lemma {:induction false} LeaseSafety(n: nat, ap: Word, gateway: Word, requested: Word, l: Lease)
    requires 24 <= n <= 28
    requires LeaseFor(PrefixMask(n), ap, gateway, requested) == Success(l)
    ensures Safe(PrefixMask(n), ap, gateway, l)
  {
    LeaseIsArithmetic(n, ap, gateway, requested);
    PlacedInside(Pow2(32 - n), ap, gateway, requested);
    forall a: Word | Within(a, l)
      ensures SameSubnet(a, ap, PrefixMask(n)) && a < BroadcastOf(ap, PrefixMask(n)) && a != ap && a != gateway
    {
      MaskingIsArithmetic(n, ap);
      SubnetIsInterval(PrefixMask(n), ap, a);
    }
  }

  // ----- Exactly which requests are accepted ----------------------------------------

  /** The answer for a block size p: the wanted start is the requested one, or the address after the AP. */
  ghost predicate AnsweredExactly(p: nat, ap: Word, gateway: Word, requested: Word, r: Outcome)
    requires p > 0
  {
    AnsweredFrom(p, ap, gateway, if requested == 0 then (ap + 1) % TWO_TO_THE_32 else requested, r)
  }

  /**
   Told with remainders alone: the range starts at the wanted start w, or at the block's first
   host if fewer than eleven hosts would be left before the broadcast address.
   */
  ghost predicate AnsweredFrom(p: nat, ap: Word, gateway: Word, w: Word, r: Outcome)
    requires p > 0
  {
    Answered(ap - ap % p <= w < ap - ap % p + p, if w % p >= p - 11 then w - w % p + 1 else w, ap, gateway, r)
  }

  /** Accepted exactly if the start is in the AP's block and neither the AP nor the gateway is in the range from s. */
  ghost predicate Answered(sameBlock: bool, s: int, ap: Word, gateway: Word, r: Outcome) {
    && (r == Failure(StartOutsideSubnet) <==> !sameBlock)
    && (r == Failure(ApInsideRange) <==> sameBlock && s <= ap <= s + 10)
    && (r == Failure(GatewayInsideRange) <==> sameBlock && !(s <= ap <= s + 10) && s <= gateway <= s + 10)
    && (r.Success? <==> sameBlock && !(s <= ap <= s + 10) && !(s <= gateway <= s + 10))
    && (r.Success? ==> r.value.start == s && r.value.end == s + 10)
  }

  /** The checks on split addresses: a gateway in the range is in the AP's block anyway. */
  lemma CheckIsExact(p: nat, ap: Split, gateway: Split, w: Split)
    requires HostSize(p) && Proper(w, p)
    requires gateway.network == ap.network <==> ap.network <= gateway.address < ap.network + p
    ensures var s := if w.host >= p - 11 then w.network + 1 else w.address;
            Answered(w.network == ap.network, s, ap.address, gateway.address, Check(ap, gateway, w, Place(w, p - 1)))
  {
    PlaceFits(w, p);
  }

  lemma SplitsAreExact(p: nat, ap: Word, gateway: Word, w: Word)
    requires HostSize(p)
    ensures AnsweredFrom(p, ap, gateway, w,
                         Check(SplitAt(ap, p), SplitAt(gateway, p), SplitAt(w, p), Place(SplitAt(w, p), p - 1)))
  {
    SplitsProper(p, w, ap);
    SplitsProper(p, gateway, ap);
    CheckIsExact(p, SplitAt(ap, p), SplitAt(gateway, p), SplitAt(w, p));
  }

  lemma ArithmeticIsExact(p: nat, ap: Word, gateway: Word, requested: Word)
    requires HostSize(p)
    ensures AnsweredExactly(p, ap, gateway, requested, LeaseAt(p, ap, gateway, requested))
  {
    var w: Word := if requested == 0 then (ap + 1) % TWO_TO_THE_32 else requested;
    assert w == Wanted(ap, requested);
    SplitsAreExact(p, ap, gateway, w);
  }

  /** The answer for every AP, every gateway and every requested start, under the masks /24 to /28. */
  lemma LeaseExactly(n: nat, ap: Word, gateway: Word, requested: Word)
    requires 24 <= n <= 28
    ensures AnsweredExactly(Pow2(32 - n), ap, gateway, requested, LeaseFor(PrefixMask(n), ap, gateway, requested))
  {
    LeaseIsArithmetic(n, ap, gateway, requested);
    ArithmeticIsExact(Pow2(32 - n), ap, gateway, requested);
  }

  /** The same from octets, for every contiguous mask. */
  lemma OutcomeExactly(localIp: Octets, gateway: Octets, subnet: Octets, requested: Octets, n: nat)
    requires n <= 32 && HostOrder(subnet) == PrefixMask(n)
    ensures var r := OutcomeFor(localIp, gateway, subnet, requested);
            && (r == Failure(BadNetmask) <==> n < 24 || n > 28)
            && (24 <= n <= 28 ==>
                  AnsweredExactly(Pow2(32 - n), HostOrder(localIp), HostOrder(gateway), HostOrder(requested), r))
  {
    LengthOfPrefixMask(subnet, n);
    if 24 <= n <= 28 {
      LeaseExactly(n, HostOrder(localIp), HostOrder(gateway), HostOrder(requested));
    }
  }

  /** The two memory words the DHCP server is told are those of the range's first and last address, in that order. */
  lemma ToldRange(r: Outcome, first: Octets, last: Octets)
    requires r.Success? && r.value.start == HostOrder(first) && r.value.end == HostOrder(last)
    ensures InMemoryOrder(r) == Success(Lease(Dword(first), Dword(last)))
  {
    ReversedDword(first);
    ReversedDword(last);
  }

  /** With the default start and the AP as gateway, exactly these host parts of the AP are accepted. */
  lemma {:induction false} LeaseCompleteness(n: nat, ap: Word)
    requires 24 <= n <= 28
    ensures var host := ap % Pow2(32 - n); var r := LeaseFor(PrefixMask(n), ap, ap, 0);
            && (r.Success? <==> if n < 28 then host != Pow2(32 - n) - 1 else host <= 3 || 12 <= host <= 14)
            && (r.Success? ==> NetworkOf(ap, PrefixMask(n)) < r.value.start)
  {
    LeaseIsArithmetic(n, ap, ap, 0);
    KeepNetwork(n, ap);
    DefaultAccepted(Pow2(32 - n), ap);
    Pow2Values();
  }

  lemma NextSplit(p: nat, a: Word)
    requires HostSize(p)
    ensures SplitAt(a, p).host < p - 1 ==>
              Add32(a, 1) == a + 1 && SplitAt(Add32(a, 1), p) == Split(a + 1, SplitAt(a, p).network, SplitAt(a, p).host + 1)
    ensures SplitAt(a, p).host == p - 1 ==> SplitAt(Add32(a, 1), p).network != SplitAt(a, p).network
  {
    Successor(a);
    SplitsProper(p, a, a);
    NextRemainder(a, p);
  }

  lemma NextRemainder(a: nat, p: nat)
    requires p > 0
    ensures (a + 1) % p == if a % p < p - 1 then a % p + 1 else 0
  {
    var q, r := a / p, a % p;
    assert a == q * p + r && (q + 1) * p == q * p + p;
    if r < p - 1 {
      DivModUnique(a + 1, q, p, r + 1);
    } else {
      DivModUnique(a + 1, q + 1, p, 0);
    }
  }

  lemma Successor(a: Word)
    ensures Add32(a, 1) == if a == TWO_TO_THE_32 - 1 then 0 else a + 1
  {
  }

  lemma DefaultAccepted(p: nat, ap: Word)
    requires HostSize(p)
    ensures var host := ap % p; var r := LeaseAt(p, ap, ap, 0);
            && (r.Success? <==> if p > 16 then host != p - 1 else host <= 3 || 12 <= host <= 14)
            && (r.Success? ==> ap - ap % p < r.value.start)
  {
    NextSplit(p, ap);
    SplitsProper(p, ap, ap);
    SplitsProper(p, Wanted(ap, 0), ap);
    PlaceFits(SplitAt(Wanted(ap, 0), p), p);
  }

  /** Asking for the start the computation chose gives the same range again. */
  lemma LeaseIsIdempotent(n: nat, ap: Word, gateway: Word, requested: Word, l: Lease)
    requires 24 <= n <= 28
    requires LeaseFor(PrefixMask(n), ap, gateway, requested) == Success(l)
    ensures LeaseFor(PrefixMask(n), ap, gateway, l.start) == Success(l)
  {
    LeaseIsArithmetic(n, ap, gateway, requested);
    LeaseIsArithmetic(n, ap, gateway, l.start);
    PlacedAgain(Pow2(32 - n), ap, gateway, requested);
  }

  lemma FirstHost(p: nat, a: Word)
    requires HostSize(p)
    ensures var w := SplitAt(a, p);
            w.network + 1 < TWO_TO_THE_32 && SplitAt(w.network + 1, p) == Split(w.network + 1, w.network, 1)
  {
    SplitsProper(p, a, a);
    SplitsProper(p, SplitAt(a, p).network + 1, a);
  }

  /** Placing the range again at the start it was given moves nothing. */
  lemma PlaceStays(p: nat, a: Word)
    requires HostSize(p)
    ensures var l := Place(SplitAt(a, p), p - 1);
            && SplitAt(l.start, p).network == SplitAt(a, p).network
            && Place(SplitAt(l.start, p), p - 1) == l
  {
    var w := SplitAt(a, p);
    SplitsProper(p, a, a);
    PlaceFits(w, p);
    if w.host >= p - 11 {
      FirstHost(p, a);
      PlaceFits(Split(w.network + 1, w.network, 1), p);
    }
  }

  lemma WantedIsNotZero(p: nat, ap: Word, requested: Word)
    requires HostSize(p)
    requires SplitAt(Wanted(ap, requested), p).network == SplitAt(ap, p).network
    ensures Wanted(ap, requested) != 0
  {
    NextSplit(p, ap);
  }

  /** No accepted range starts at 0.0.0.0, the request for the default start. */
  lemma StartIsNotZero(p: nat, ap: Word, gateway: Word, requested: Word)
    requires HostSize(p)
    requires LeaseAt(p, ap, gateway, requested).Success?
    ensures LeaseAt(p, ap, gateway, requested).value.start != 0
  {
    WantedIsNotZero(p, ap, requested);
    SplitsProper(p, Wanted(ap, requested), ap);
    PlaceFits(SplitAt(Wanted(ap, requested), p), p);
  }

  lemma PlacedAgain(p: nat, ap: Word, gateway: Word, requested: Word)
    requires HostSize(p)
    requires LeaseAt(p, ap, gateway, requested).Success?
    ensures LeaseAt(p, ap, gateway, LeaseAt(p, ap, gateway, requested).value.start) == LeaseAt(p, ap, gateway, requested)
  {
    StartIsNotZero(p, ap, gateway, requested);
    PlaceStays(p, Wanted(ap, requested));
  }
}
