/** Enumeration of address ranges: increment_ip, and the generators gen_ip_range and
    gen_ip_range_from_cidr, whose yielded sequences are returned here as lists. */
module Enumeration {
  import opened Wrappers
  import opened Arith
  import opened Codec
  import opened Cidr
  import opened Dispatch

  /** increment_ip: the address one above, through the integer form. */
  function IncrementIp(ip: string): (r: Option<string>)
    ensures r.Some? <==> IpToInt(ip).Some?
  {
    match IpToInt(ip)
    case None => None
    case Some(n) => Some(Dotted(n + 1))
  }

  /** Incrementing octet by octet, as one counts on paper: the last octet below 255 goes up by
      one and every 255 after it wraps to 0. The reference increment_ip is checked against. */
  function CarryIncrement(octets: seq<nat>): (r: seq<nat>)
    ensures |r| == |octets|
  {
    if octets == [] then []
    else
      var last := octets[|octets| - 1];
      if last < 255 then octets[..|octets| - 1] + [last + 1]
      else CarryIncrement(octets[..|octets| - 1]) + [0]
  }

  /** Adding one to the integer form carries through the octets. */
  lemma IncrementCarries(n: nat)
    requires n + 1 < AddressCount
    ensures Octets(n + 1) == CarryIncrement(Octets(n))
  {
    var o := Octets(n);
    OctetsValue(n);
    PlaceSumOfFour(o);
    assert o[..3][..2][..1][..0] == [];
    var c: seq<nat>;
    if o[3] < 255 {
      c := [o[0], o[1], o[2], o[3] + 1];
      assert CarryIncrement(o) == o[..3] + [o[3] + 1];
    } else if o[2] < 255 {
      c := [o[0], o[1], o[2] + 1, 0];
      assert CarryIncrement(o[..3]) == o[..2] + [o[2] + 1];
    } else if o[1] < 255 {
      c := [o[0], o[1] + 1, 0, 0];
      assert CarryIncrement(o[..3][..2]) == o[..1] + [o[1] + 1];
    } else {
      assert o[0] < 255;
      c := [o[0] + 1, 0, 0, 0];
      assert CarryIncrement(o[..3][..2][..1]) == [o[0] + 1];
    }
    assert CarryIncrement(o) == c;
    PlaceSumOfFour(c);
    OctetsOfPlaceSum(c);
  }

  /** increment_ip on a dotted quad below the last address gives the next dotted quad, and its
      octets are those of the argument incremented with carry. */
  lemma IncrementIpNext(ip: string)
    requires IsDottedQuad(ip) && Address(ip) + 1 < AddressCount
    ensures IncrementIp(ip).Some?
    ensures IsDottedQuad(IncrementIp(ip).value)
    ensures Address(IncrementIp(ip).value) == Address(ip) + 1
    ensures Octets(Address(IncrementIp(ip).value)) == CarryIncrement(Octets(Address(ip)))
  {
    var n := Address(ip);
    var next := Dotted(n + 1);
    assert IncrementIp(ip) == Some(next) by { IncrementIpValue(ip, n); }
    assert IsDottedQuad(next) && Address(next) == n + 1 by { AddressOfDotted(n + 1); }
    IncrementCarries(n);
  }

  lemma IncrementIpValue(ip: string, n: nat)
    requires IpToInt(ip) == Some(n)
    ensures IncrementIp(ip) == Some(Dotted(n + 1))
  {
  }

  /** One step of gen_ip_range: below the end address, increment_ip moves to the next value. */
  lemma NextAddress(c: nat, e: nat, end: string)
    requires c <= e < AddressCount && Dotted(e) == end && Dotted(c) != end
    ensures c < e && IncrementIp(Dotted(c)) == Some(Dotted(c + 1))
  {
    IntToIpRoundTrip(c);
    IncrementIpValue(Dotted(c), c);
  }

  lemma AddressOfDotted(n: nat)
    requires n < AddressCount
    ensures IsDottedQuad(Dotted(n)) && Address(Dotted(n)) == n
  {
    IntToIpRoundTrip(n);
  }

  /** gen_ip_range: yield start, then keep incrementing until end has been yielded. The range
      is inclusive at both ends and the addresses come in increasing order, each the
      increment_ip of the one before. */
  method GenIpRange(start: string, end: string) returns (ips: seq<string>)
    requires IsDottedQuad(start) && IsDottedQuad(end)
    requires Address(start) <= Address(end)
    ensures |ips| == Address(end) - Address(start) + 1
    ensures forall k :: 0 <= k < |ips| ==> IsDottedQuad(ips[k]) && ips[k] == Dotted(Address(start) + k)
    ensures forall k :: 0 <= k < |ips| ==> IsDottedQuad(ips[k]) && Address(ips[k]) == Address(start) + k
    ensures ips[0] == start && ips[|ips| - 1] == end
    ensures forall k :: 0 < k < |ips| ==> IncrementIp(ips[k - 1]) == Some(ips[k])
    ensures ips == DottedRange(Address(start), Address(end) + 1)
  {
    ips := YieldRange(start, end, Address(start), Address(end));
    GeneratedRange(ips, start, end);
  }

  /** The texts of the address values s up to but not including c, in increasing order */
  ghost function DottedRange(s: nat, c: nat): (ips: seq<string>)
    requires s <= c
    ensures |ips| == c - s
    decreases c - s
  {
    if c == s then [] else DottedRange(s, c - 1) + [Dotted(c - 1)]
  }

  /** The loop of gen_ip_range, for ends whose address values are s and e. */
  method YieldRange(start: string, end: string, ghost s: nat, ghost e: nat) returns (ips: seq<string>)
    requires start == Dotted(s) && end == Dotted(e) && s <= e < AddressCount
    ensures ips == DottedRange(s, e + 1)
  {
    ips := [];
    var current := start;
    ghost var c := s;
    while true
      invariant s <= c <= e
      invariant ips == DottedRange(s, c) && current == Dotted(c)
      decreases e - c
    {
      ips := ips + [current];
      if current != end {
        NextAddress(c, e, end);
        current := IncrementIp(current).value;
        c := c + 1;
      } else {
        DottedInjective(c, e);
        break;
      }
    }
  }

  /** Entry k of a range is the text of address s + k. */
  lemma {:induction false} DottedRangeAt(s: nat, c: nat, k: nat)
    requires s <= c && k < c - s
    ensures DottedRange(s, c)[k] == Dotted(s + k)
    decreases c - s
  {
    if k < c - 1 - s {
      DottedRangeAt(s, c - 1, k);
    }
  }

  /** What a finished run of gen_ip_range has yielded, stated on the texts of its ends. */
  lemma GeneratedRange(ips: seq<string>, start: string, end: string)
    requires IsDottedQuad(start) && IsDottedQuad(end) && Address(start) <= Address(end)
    requires ips == DottedRange(Address(start), Address(end) + 1)
    ensures |ips| == Address(end) - Address(start) + 1
    ensures forall k :: 0 <= k < |ips| ==> IsDottedQuad(ips[k]) && ips[k] == Dotted(Address(start) + k)
    ensures forall k :: 0 <= k < |ips| ==> IsDottedQuad(ips[k]) && Address(ips[k]) == Address(start) + k
    ensures ips[0] == start && ips[|ips| - 1] == end
    ensures forall k :: 0 < k < |ips| ==> IncrementIp(ips[k - 1]) == Some(ips[k])
  {
    var s, e := Address(start), Address(end);
    RangeEntries(ips, s, e + 1);
    RangeLinks(ips, s, e + 1);
  }

  lemma RangeEntries(ips: seq<string>, s: nat, c: nat)
    requires s <= c <= AddressCount && ips == DottedRange(s, c)
    ensures forall k :: 0 <= k < |ips| ==> IsDottedQuad(ips[k]) && ips[k] == Dotted(s + k) && Address(ips[k]) == s + k
  {
    forall k | 0 <= k < |ips|
      ensures IsDottedQuad(ips[k]) && ips[k] == Dotted(s + k) && Address(ips[k]) == s + k
    {
      RangeEntry(ips, s, c, k);
    }
  }

  lemma RangeLinks(ips: seq<string>, s: nat, c: nat)
    requires s <= c <= AddressCount && ips == DottedRange(s, c)
    ensures forall k :: 0 < k < |ips| ==> IncrementIp(ips[k - 1]) == Some(ips[k])
  {
    forall k | 0 < k < |ips|
      ensures IncrementIp(ips[k - 1]) == Some(ips[k])
    {
      RangeLink(ips, s, c, k);
    }
  }

  lemma RangeEntry(ips: seq<string>, s: nat, c: nat, k: nat)
    requires s <= c <= AddressCount && ips == DottedRange(s, c) && k < c - s
    ensures IsDottedQuad(ips[k]) && ips[k] == Dotted(s + k) && Address(ips[k]) == s + k
  {
    DottedRangeAt(s, c, k);
    AddressOfDotted(s + k);
  }

  lemma RangeLink(ips: seq<string>, s: nat, c: nat, k: nat)
    requires s <= c <= AddressCount && ips == DottedRange(s, c) && 0 < k < c - s
    ensures IncrementIp(ips[k - 1]) == Some(ips[k])
  {
    var n := s + k - 1;
    assert ips[k - 1] == Dotted(n) by { DottedRangeAt(s, c, k - 1); }
    assert ips[k] == Dotted(n + 1) by { DottedRangeAt(s, c, k); }
    IncrementOfDotted(n);
  }

  lemma IncrementOfDotted(n: nat)
    requires n + 1 < AddressCount
    ensures IncrementIp(Dotted(n)) == Some(Dotted(n + 1))
  {
    IntToIpRoundTrip(n);
    IncrementIpValue(Dotted(n), n);
  }

  /** ips lists every address from start to end, in increasing order. */
  ghost predicate EnumeratesRange(ips: seq<string>, start: string, end: string)
  {
    IsDottedQuad(start) && IsDottedQuad(end) && Address(start) <= Address(end)
    && ips == DottedRange(Address(start), Address(end) + 1)
  }

  /** gen_ip_range_from_cidr: every address of the block, from its network address to its
      last address in increasing order. The list holds exactly the dotted quads
      check_ip_in_cidr accepts, and a block of prefix length n holds 2 ** (32 - n) of them. */
  method GenIpRangeFromCidr(cidr: string) returns (r: Option<seq<string>>)
    ensures r.Some? <==> IpToInt(BaseAddress(cidr)).Some? && NetmaskFromCidr(cidr).Some?
    ensures r.Some? ==>
      CidrRange(cidr).Some? && EnumeratesRange(r.value, CidrRange(cidr).value.0, CidrRange(cidr).value.1)
    ensures r.Some? ==> |r.value| >= 1 && CidrRange(cidr) == Some((r.value[0], r.value[|r.value| - 1]))
    ensures r.Some? ==> forall k :: 0 <= k < |r.value| ==>
      IsDottedQuad(r.value[k]) && CheckIpInCidr(r.value[k], cidr) == Some(true)
    ensures r.Some? ==> forall ip :: IsDottedQuad(ip) && CheckIpInCidr(ip, cidr) == Some(true) ==> ip in r.value
    ensures r.Some? && IpToInt(BaseAddress(cidr)).Some? && IpToInt(BaseAddress(cidr)).value < AddressCount
            && NetmaskFromCidr(cidr).Some?
        ==> |r.value| == Pow2(HostBits(NetmaskFromCidr(cidr).value))
  {
    var range := CidrToIpRange(cidr);
    if range.None? {
      return None;
    }
    var (start, end) := range.value;
    var ips := GenIpRange(start, end);
    r := Some(ips);
    BlockMembersAccepted(cidr, start, end, ips);
    BlockMembersComplete(cidr, start, end, ips);
    BlockSize(cidr);
  }

  /** Every address of a list that enumerates the range of a block is accepted by
      check_ip_in_cidr for that block. */
  lemma BlockMembersAccepted(cidr: string, start: string, end: string, ips: seq<string>)
    requires CidrRange(cidr) == Some((start, end))
    requires IsDottedQuad(start) && IsDottedQuad(end)
    requires |ips| == Address(end) - Address(start) + 1
    requires forall k :: 0 <= k < |ips| ==> IsDottedQuad(ips[k]) && Address(ips[k]) == Address(start) + k
    ensures forall k :: 0 <= k < |ips| ==> CheckIpInCidr(ips[k], cidr) == Some(true)
  {
    forall k | 0 <= k < |ips|
      ensures CheckIpInCidr(ips[k], cidr) == Some(true)
    {
      CheckIpInCidrOfDottedQuads(ips[k], cidr);
    }
  }

  /** Every dotted quad check_ip_in_cidr accepts for a block is in a list that enumerates the
      range of the block. */
  lemma BlockMembersComplete(cidr: string, start: string, end: string, ips: seq<string>)
    requires CidrRange(cidr) == Some((start, end))
    requires IsDottedQuad(start) && IsDottedQuad(end)
    requires |ips| == Address(end) - Address(start) + 1
    requires forall k :: 0 <= k < |ips| ==> ips[k] == Dotted(Address(start) + k)
    ensures forall ip :: IsDottedQuad(ip) && CheckIpInCidr(ip, cidr) == Some(true) ==> ip in ips
  {
    forall ip | IsDottedQuad(ip) && CheckIpInCidr(ip, cidr) == Some(true)
      ensures ip in ips
    {
      CheckIpInCidrOfDottedQuads(ip, cidr);
      var v := Address(ip);
      assert ips[v - Address(start)] == Dotted(v) == ip;
    }
  }

  /** The range of a block of prefix length n spans 2 ** HostBits(n) addresses. */
  lemma BlockSize(cidr: string)
    requires CidrRange(cidr).Some?
    ensures IpToInt(BaseAddress(cidr)).Some? && NetmaskFromCidr(cidr).Some?
    ensures IsDottedQuad(CidrRange(cidr).value.0) && IsDottedQuad(CidrRange(cidr).value.1)
    ensures IpToInt(BaseAddress(cidr)).value < AddressCount ==>
      Address(CidrRange(cidr).value.1) - Address(CidrRange(cidr).value.0) + 1
        == Pow2(HostBits(NetmaskFromCidr(cidr).value))
  {
    CidrRangeWellFormed(cidr);
    var b := IpToInt(BaseAddress(cidr)).value;
    if b < AddressCount {
      CidrRangeBlock(cidr, b, NetmaskFromCidr(cidr).value);
    }
  }
}
