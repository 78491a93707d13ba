/** CIDR arithmetic of util.py: the prefix length of "A.B.C.D/N", the 32-bit prefix
    netmask, and the network/broadcast pair of the block (CIDR prefix notation as in
    section 3.1 of RFC 4632). */
module Cidr {
  import opened Wrappers
  import opened Arith
  import opened Text
  import opened Codec

  /** netmask_from_cidr: int() of the text after the first '/' (up to a second '/', if any).
      Without a '/' Python raises IndexError; that is None here. */
  function NetmaskFromCidr(cidr: string): (r: Option<nat>)
    ensures r.Some? ==> '/' in cidr
  {
    var parts := Split(cidr, '/');
    SplitPieces(cidr, '/');
    if |parts| < 2 then None else ParseDecimal(parts[1])
  }

  /** cidr.split('/')[0]: the base address text */
  function BaseAddress(cidr: string): string
  {
    Split(cidr, '/')[0]
  }

  /** The two kinds of argument netmask_to_binary is called with: an int, or a Python 2 str
      (a CIDR string when it contains '/', otherwise an address used as a mask). A unicode
      argument, which always falls through to ip_to_bin, is not represented. */
  datatype Netmask = PrefixLength(bits: int) | MaskText(text: string)

  /** ''.join(['1' if i < n else '0' for i in range(32)]): a contiguous mask of
      32 - HostBits(n) ones then HostBits(n) zeros, so exactly n ones for 0 <= n <= 32. */
  function PrefixMask(n: int): (r: string)
    ensures |r| == 32 && AllBits(r)
    ensures r == Repeat('1', 32 - HostBits(n)) + Repeat('0', HostBits(n))
  {
    var r := seq(32, i => if i < n then '1' else '0');
    assert r == Repeat('1', 32 - HostBits(n)) + Repeat('0', HostBits(n));
    r
  }

  /** netmask_to_binary: a CIDR string is first reduced to its prefix length; an int becomes
      a prefix mask; any other string is taken as an address and rendered by ip_to_bin.
      An int never fails; text fails exactly when the conversion it is routed to fails; the
      result is always a string of at least 32 bits. */
  function NetmaskToBinary(netmask: Netmask): (r: Option<string>)
    ensures r.None? <==>
      netmask.MaskText? && if '/' in netmask.text then NetmaskFromCidr(netmask.text).None? else IpToInt(netmask.text).None?
    ensures r.Some? ==> |r.value| >= 32 && AllBits(r.value)
  {
    match netmask
    case PrefixLength(n) => Some(PrefixMask(n))
    case MaskText(s) =>
      if '/' in s then
        match NetmaskFromCidr(s)
        case None => None
        case Some(n) => Some(PrefixMask(n))
      else
        IpToBin(s)
  }

  function Min(a: nat, b: nat): nat
  {
    if a <= b then a else b
  }

  /** The bit string cidr_to_ip_range builds over zip(ip_bin, netmask_bin): the address bit
      where the mask bit is '1', otherwise `fill` ('0' for the start, '1' for the end). */
  function MaskedBits(ipBits: string, maskBits: string, fill: char): (r: string)
    ensures |r| == Min(|ipBits|, |maskBits|)
  {
    seq(Min(|ipBits|, |maskBits|), i requires 0 <= i < Min(|ipBits|, |maskBits|) =>
      if maskBits[i] == '1' then ipBits[i] else fill)
  }

  /** What cidr_to_ip_range returns: (start, end) as dotted text, or None where Python raises.
      It raises exactly when the base address or the prefix length does not parse. */
  function CidrRange(cidr: string): (r: Option<(string, string)>)
    ensures r.Some? <==> IpToInt(BaseAddress(cidr)).Some? && NetmaskFromCidr(cidr).Some?
  {
    match (IpToBin(BaseAddress(cidr)), NetmaskFromCidr(cidr))
    case (Some(ipBits), Some(n)) =>
      var maskBits := PrefixMask(n);
      var startBits, endBits := MaskedBits(ipBits, maskBits, '0'), MaskedBits(ipBits, maskBits, '1');
      assert AllBits(startBits) && AllBits(endBits) && |startBits| == 32 && |endBits| == 32;
      BinRangeOf(startBits, endBits)
    case _ => None
  }

  /** cidr_to_ip_range: one pass over the paired address and mask bits, appending a start
      bit and an end bit per position, then both strings converted back to addresses. */
  method CidrToIpRange(cidr: string) returns (r: Option<(string, string)>)
    ensures r == CidrRange(cidr)
    ensures r.Some? <==> IpToInt(BaseAddress(cidr)).Some? && NetmaskFromCidr(cidr).Some?
    ensures r.Some? ==> (IsDottedQuad(r.value.0) && IsDottedQuad(r.value.1)
                         && Address(r.value.0) <= Address(r.value.1))
  {
    var ipBin := IpToBin(BaseAddress(cidr));
    var netmask := NetmaskFromCidr(cidr);
    if ipBin.None? || netmask.None? {
      CidrRangeWellFormed(cidr);
      return None;
    }
    var ipBits := ipBin.value;
    var maskBits := PrefixMask(netmask.value);
    var start, end := "", "";
    var i := 0;
    while i < |ipBits| && i < |maskBits|
      invariant i <= Min(|ipBits|, |maskBits|)
      invariant |start| == i && |end| == i
      invariant forall k :: 0 <= k < i ==> start[k] == if maskBits[k] == '1' then ipBits[k] else '0'
      invariant forall k :: 0 <= k < i ==> end[k] == if maskBits[k] == '1' then ipBits[k] else '1'
    {
      start := start + [if maskBits[i] == '1' then ipBits[i] else '0'];
      end := end + [if maskBits[i] == '1' then ipBits[i] else '1'];
      i := i + 1;
    }
    assert start == MaskedBits(ipBits, maskBits, '0');
    assert end == MaskedBits(ipBits, maskBits, '1');
    var first := BinToIp(start);
    var last := BinToIp(end);
    if first.None? || last.None? {
      r := None;
    } else {
      r := Some((first.value, last.value));
    }
    assert r == CidrRange(cidr);
    CidrRangeWellFormed(cidr);
  }

  // ---------------------------------------------------------------- the prefix mask

  /** The number of host bits a prefix length leaves (a prefix above 32 masks all 32 bits). */
  function HostBits(n: int): nat
  {
    if n >= 32 then 0 else if n <= 0 then 32 else 32 - n
  }

  /** For a prefix length in [0, 32] the mask's value is 2 ** 32 - 2 ** (32 - n). */
  lemma PrefixMaskValue(n: int)
    ensures AllBits(PrefixMask(n))
    ensures BinaryValue(PrefixMask(n)) == Pow2(32) - Pow2(HostBits(n))
  {
    var k := HostBits(n);
    BinaryValueOfOnesThenZeros(32 - k, k);
    assert 32 - k + k == 32;
  }

  /** The value of the mask with n leading ones */
  function MaskValue(n: nat): nat
    requires n <= 32
  {
    Pow2Monotone(32 - n, 32);
    Pow2(32) - Pow2(32 - n)
  }

  /** A CIDR string and its prefix length give the same mask through netmask_to_binary. */
  lemma NetmaskOfCidrText(cidr: string, n: nat)
    requires NetmaskFromCidr(cidr) == Some(n)
    ensures NetmaskToBinary(MaskText(cidr)) == NetmaskToBinary(PrefixLength(n))
  {
    var parts := Split(cidr, '/');
    JoinSplit(cidr, '/');
    assert cidr == parts[0] + ['/'] + Join(parts[1..], '/');
    assert cidr[|parts[0]|] == '/';
  }

  /** Address text, which has no '/', falls through to ip_to_bin: 32 bits worth the address. */
  lemma NetmaskOfAddressText(ip: string)
    requires IsDottedQuad(ip)
    ensures NetmaskToBinary(MaskText(ip)).Some?
    ensures var bits := NetmaskToBinary(MaskText(ip)).value;
      |bits| == 32 && AllBits(bits) && BinaryValue(bits) == Address(ip)
  {
    var n := Address(ip);
    DottedHasNoSlash(n);
    IpToBinBits(ip, n);
  }

  lemma DottedHasNoSlash(v: nat)
    ensures '/' !in Dotted(v)
  {
    var parts := DecimalAll(Octets(v));
    DecimalAllAt(Octets(v));
    forall i | 0 <= i < |parts|
      ensures '/' !in parts[i]
    {
      DigitsHaveNoSeparator(parts[i], '/');
    }
    JoinHasNo(parts, '.', '/');
  }

  lemma {:induction false} JoinHasNo(parts: seq<string>, sep: char, c: char)
    requires c != sep && forall i :: 0 <= i < |parts| ==> c !in parts[i]
    ensures c !in Join(parts, sep)
    decreases |parts|
  {
    if |parts| > 1 {
      JoinHasNo(parts[1..], sep, c);
    }
  }

  /** The dotted form of a contiguous mask, passed as text, gives the same bits as its
      prefix length: netmask_to_binary('255.255.255.0') == netmask_to_binary(24). */
  lemma NetmaskOfDottedMask(n: nat)
    requires n <= 32
    ensures NetmaskToBinary(MaskText(Dotted(MaskValue(n)))) == NetmaskToBinary(PrefixLength(n))
  {
    var v := MaskValue(n);
    var mask := PrefixMask(n);
    assert AllBits(mask) && v == BinaryValue(mask) by {
      PrefixMaskValue(n);
    }
    assert v < AddressCount by {
      BinaryValueBound(mask);
      AddressCountIsPow2();
    }
    assert NetmaskToBinary(MaskText(Dotted(v))) == IpToBin(Dotted(v)) by {
      DottedHasNoSlash(v);
    }
    assert IpToBin(Dotted(v)) == Some(FixedBits(v, 32)) by {
      IntToIpRoundTrip(v);
      IpToBinBits(Dotted(v), v);
    }
    FixedBitsOfValue(mask);
  }

  /** Writing a base and a prefix length as "base/n" reads both back. */
  lemma CidrTextRoundTrip(base: string, n: nat)
    requires '/' !in base
    ensures BaseAddress(base + "/" + Decimal(n)) == base
    ensures NetmaskFromCidr(base + "/" + Decimal(n)) == Some(n)
  {
    SplitFirstPiece(base, Decimal(n), '/');
    DigitsHaveNoSeparator(Decimal(n), '/');
    SplitNoSeparator(Decimal(n), '/');
    DecimalRoundTrip(n);
  }

  // ---------------------------------------------------------------- the address range

  /** The network address: b with its low k bits cleared */
  function Network(b: nat, k: nat): nat
  {
    var p := Pow2(k);
    DivNonNeg(b, p);
    var q: nat := b / p;
    MulNonNeg(q, p);
    q * p
  }

  lemma MaskedBitsOfPrefix(ipBits: string, mask: string, m: nat, k: nat)
    requires |ipBits| == m + k && AllBits(ipBits) && mask == Repeat('1', m) + Repeat('0', k)
    ensures MaskedBits(ipBits, mask, '0') == ipBits[..m] + Repeat('0', k)
    ensures MaskedBits(ipBits, mask, '1') == ipBits[..m] + Repeat('1', k)
  {
  }

  /** Splitting a bit string after its first m bits splits its value into quotient and
      remainder by 2 ** (|s| - m). */
  lemma HighBits(s: string, m: nat)
    requires AllBits(s) && m <= |s|
    ensures BinaryValue(s[..m]) == BinaryValue(s) / Pow2(|s| - m)
  {
    assert s == s[..m] + s[m..];
    BinaryValueAppend(s[..m], s[m..]);
    BinaryValueBound(s[m..]);
    DivModUnique(BinaryValue(s), Pow2(|s| - m), BinaryValue(s[..m]), BinaryValue(s[m..]));
  }

  /** For a base address b and a prefix length n, cidr_to_ip_range returns b with its host
      bits cleared and b with its host bits set: the network and broadcast addresses of a
      block of 2 ** HostBits(n) addresses that contains b. Host bits in the base are masked,
      not rejected; a prefix above 32 gives the single address b. */
  lemma CidrRangeBlock(cidr: string, b: nat, n: nat)
    requires IpToInt(BaseAddress(cidr)) == Some(b) && b < AddressCount
    requires NetmaskFromCidr(cidr) == Some(n)
    ensures CidrRange(cidr).Some?
    ensures var (start, end) := CidrRange(cidr).value;
      var k := HostBits(n);
      && IsDottedQuad(start) && IsDottedQuad(end)
      && Address(start) == Network(b, k)
      && Address(end) == Network(b, k) + Pow2(k) - 1
      && Address(start) <= b <= Address(end)
      && Address(end) - Address(start) + 1 == Pow2(k)
  {
    var k := HostBits(n);
    assert IpToBin(BaseAddress(cidr)).Some? && var bits := IpToBin(BaseAddress(cidr)).value;
      |bits| == 32 && AllBits(bits) && BinaryValue(bits) == b by {
      IpToBinBits(BaseAddress(cidr), b);
    }
    var ipBits := IpToBin(BaseAddress(cidr)).value;
    CidrRangeOfBits(cidr, ipBits, n);
    BlockRange(ipBits, b, k);
  }

  /** The start and end bit strings of a block around the 32-bit address b convert to the
      dotted network and broadcast addresses of that block. */
  lemma BlockRange(ipBits: string, b: nat, k: nat)
    requires |ipBits| == 32 && AllBits(ipBits) && BinaryValue(ipBits) == b && k <= 32
    ensures BinRangeOf(ipBits[..32 - k] + Repeat('0', k), ipBits[..32 - k] + Repeat('1', k)).Some?
    ensures var (start, end) := BinRangeOf(ipBits[..32 - k] + Repeat('0', k), ipBits[..32 - k] + Repeat('1', k)).value;
      && IsDottedQuad(start) && IsDottedQuad(end)
      && Address(start) == Network(b, k)
      && Address(end) == Network(b, k) + Pow2(k) - 1
      && Address(start) <= b <= Address(end)
      && Address(end) - Address(start) + 1 == Pow2(k)
  {
    var startBits := ipBits[..32 - k] + Repeat('0', k);
    var endBits := ipBits[..32 - k] + Repeat('1', k);
    BlockBits(ipBits, b, k);
    assert Network(b, k) <= b <= Network(b, k) + Pow2(k) - 1 by {
      DivMod(b, Pow2(k));
    }
    BinRangeOfAddresses(startBits, endBits);
  }

  /** With the mask m ones then k zeros, the start keeps the first m address bits and
      clears the rest, and the end keeps them and sets the rest. */
  lemma CidrRangeOfBits(cidr: string, ipBits: string, n: nat)
    requires IpToBin(BaseAddress(cidr)) == Some(ipBits) && |ipBits| == 32 && AllBits(ipBits)
    requires NetmaskFromCidr(cidr) == Some(n)
    ensures var k := HostBits(n);
      CidrRange(cidr) == BinRangeOf(ipBits[..32 - k] + Repeat('0', k), ipBits[..32 - k] + Repeat('1', k))
  {
    var k := HostBits(n);
    var mask := PrefixMask(n);
    assert MaskedBits(ipBits, mask, '0') == ipBits[..32 - k] + Repeat('0', k)
        && MaskedBits(ipBits, mask, '1') == ipBits[..32 - k] + Repeat('1', k) by {
      MaskedBitsOfPrefix(ipBits, mask, 32 - k, k);
    }
  }

  /** The pair bin_to_ip makes of a start and an end bit string */
  function BinRangeOf(startBits: string, endBits: string): Option<(string, string)>
  {
    match (BinToIp(startBits), BinToIp(endBits))
    case (Some(start), Some(end)) => Some((start, end))
    case _ => None
  }

  lemma BinRangeOfAddresses(startBits: string, endBits: string)
    requires |startBits| == 32 && AllBits(startBits) && |endBits| == 32 && AllBits(endBits)
    ensures BinRangeOf(startBits, endBits).Some?
    ensures var (start, end) := BinRangeOf(startBits, endBits).value;
      && IsDottedQuad(start) && Address(start) == BinaryValue(startBits)
      && IsDottedQuad(end) && Address(end) == BinaryValue(endBits)
  {
    BinToIpValue(startBits);
    BinToIpValue(endBits);
  }

  /** Keeping the first 32 - k bits of an address b and filling the rest with zeros (ones) gives the
      network (broadcast) address. */
  lemma BlockBits(ipBits: string, b: nat, k: nat)
    requires |ipBits| == 32 && AllBits(ipBits) && BinaryValue(ipBits) == b && k <= 32
    ensures AllBits(ipBits[..32 - k] + Repeat('0', k)) && AllBits(ipBits[..32 - k] + Repeat('1', k))
    ensures BinaryValue(ipBits[..32 - k] + Repeat('0', k)) == Network(b, k)
    ensures BinaryValue(ipBits[..32 - k] + Repeat('1', k)) == Network(b, k) + Pow2(k) - 1
  {
    var m := 32 - k;
    var hi := BinaryValue(ipBits[..m]);
    assert hi == b / Pow2(k) by {
      HighBits(ipBits, m);
    }
    BinaryValueAppend(ipBits[..m], Repeat('0', k));
    BinaryValueOfZeros(k);
    BinaryValueAppend(ipBits[..m], Repeat('1', k));
    BinaryValueOfOnes(k);
  }

  lemma {:induction false} BinaryValuePointwise(x: string, y: string)
    requires |x| == |y| && AllBits(x) && AllBits(y)
    requires forall i :: 0 <= i < |x| && x[i] == '1' ==> y[i] == '1'
    ensures BinaryValue(x) <= BinaryValue(y)
    decreases |x|
  {
    if x != [] {
      BinaryValuePointwise(x[..|x| - 1], y[..|y| - 1]);
    }
  }

  /** When cidr_to_ip_range succeeds it returns two dotted quads with start <= end, whatever
      the base (a base of 2 ** 32 or more has only its 32 leading bits paired with the mask). */
  lemma CidrRangeWellFormed(cidr: string)
    ensures CidrRange(cidr).Some? ==>
      var (start, end) := CidrRange(cidr).value;
      IsDottedQuad(start) && IsDottedQuad(end) && Address(start) <= Address(end)
  {
    var base := IpToInt(BaseAddress(cidr));
    var netmask := NetmaskFromCidr(cidr);
    if base.Some? && netmask.Some? {
      var ipBits := ZFill(BinaryDigits(base.value), 32);
      var maskBits := PrefixMask(netmask.value);
      assert |ipBits| >= 32 && AllBits(ipBits);
      var startBits := MaskedBits(ipBits, maskBits, '0');
      var endBits := MaskedBits(ipBits, maskBits, '1');
      assert CidrRange(cidr) == BinRangeOf(startBits, endBits);
      assert |startBits| == 32 && |endBits| == 32 && AllBits(startBits) && AllBits(endBits);
      assert BinaryValue(startBits) <= BinaryValue(endBits) by {
        BinaryValuePointwise(startBits, endBits);
      }
      BinRangeOfAddresses(startBits, endBits);
    }
  }
}
