/** The address codec of util.py: dotted-decimal text, the integer value and the
    32-character binary string of an IPv4 address, and the conversions between them. */
module Codec {
  import opened Wrappers
  import opened Arith
  import opened Text

  /** 2 ** 32, one past the largest address value */
  const AddressCount: nat := 0x1_0000_0000

  // ---------------------------------------------------------------- integer -> text

  /** The digits int_to_ip extracts for the places 256 ** (places - 1) down to 256 ** 0:
      each digit is what remains divided by the place, and the remainder carries on.
      The leading digit is not reduced, so a value of 2 ** 32 or more gets a leading digit above 255. */
  function PlaceDigits(n: nat, places: nat): (d: seq<nat>)
    ensures |d| == places
    decreases places, n
  {
    if places == 0 then []
    else
      var place := Pow256(places - 1);
      DivNonNeg(n, place);
      [n / place] + PlaceDigits(n % place, places - 1)
  }

  /** The four octets of an address value, most significant first */
  function Octets(n: nat): seq<nat>
  {
    PlaceDigits(n, 4)
  }

  /** [str(d) for d in ds] */
  function DecimalAll(ds: seq<nat>): (texts: seq<string>)
    ensures |texts| == |ds|
  {
    if ds == [] then [] else [Decimal(ds[0])] + DecimalAll(ds[1..])
  }

  /** Each text of DecimalAll(ds) is the decimal of the corresponding digit. */
  lemma {:induction false} DecimalAllAt(ds: seq<nat>)
    ensures forall i :: 0 <= i < |ds| ==> DecimalAll(ds)[i] == Decimal(ds[i])
  {
    if ds != [] {
      DecimalAllAt(ds[1..]);
    }
  }

  /** The text int_to_ip renders for n: its octets in decimal, joined by '.' */
  function Dotted(n: nat): string
  {
    Join(DecimalAll(Octets(n)), '.')
  }

  /** int_to_ip: four place-by-place divisions, each subtracting what it extracted. */
  method IntToIp(ipInt: nat) returns (ip: string)
    ensures ip == Dotted(ipInt)
    ensures ipInt < AddressCount ==> IsDottedQuad(ip) && IpToInt(ip) == Some(ipInt)
  {
    var digits: seq<nat> := [];
    var rest := ipInt;
    for i := 4 downto 0
      invariant digits + PlaceDigits(rest, i) == Octets(ipInt)
    {
      var place := Pow256(i);
      ExtractDigit(rest, i, place);
      var digit := rest / place;
      assert digits + [digit] + PlaceDigits(rest - digit * place, i) == digits + PlaceDigits(rest, i + 1);
      digits := digits + [digit];
      rest := rest - digit * place;
    }
    assert PlaceDigits(rest, 0) == [];
    assert digits == Octets(ipInt);
    ip := Join(DecimalAll(digits), '.');
    if ipInt < AddressCount {
      IntToIpRoundTrip(ipInt);
    }
  }

  /** One step of int_to_ip: the digit for place 256 ** i, then the remainder after subtracting it. */
  lemma ExtractDigit(rest: nat, i: nat, place: nat)
    requires place == Pow256(i)
    ensures rest / place >= 0 && rest - (rest / place) * place >= 0
    ensures PlaceDigits(rest, i + 1) == [rest / place] + PlaceDigits(rest - (rest / place) * place, i)
  {
    DivNonNeg(rest, place);
    DivMod(rest, place);
  }

  // ---------------------------------------------------------------- text -> integer

  /** sum(v * 256 ** (3 - i) for i, v in enumerate(vals)), for at most four components */
  function PlaceSum(vals: seq<nat>): nat
    requires |vals| <= 4
  {
    if vals == [] then 0
    else PlaceSum(vals[..|vals| - 1]) + vals[|vals| - 1] * Pow256(4 - |vals|)
  }

  /** [int(v) for v in parts]: fails as soon as one component is not decimal text */
  function ParseAll(parts: seq<string>): (r: Option<seq<nat>>)
    ensures r.Some? ==> |r.value| == |parts|
  {
    if parts == [] then Some([])
    else
      match (ParseDecimal(parts[0]), ParseAll(parts[1..]))
      case (Some(v), Some(vs)) => Some([v] + vs)
      case _ => None
  }

  /** The conversion of the components succeeds exactly when every component is decimal
      text, and then holds the value of each. */
  lemma {:induction false} ParseAllMeaning(parts: seq<string>)
    ensures ParseAll(parts).Some? <==> forall i :: 0 <= i < |parts| ==> ParseDecimal(parts[i]).Some?
    ensures ParseAll(parts).Some? ==> forall i :: 0 <= i < |parts| ==> ParseDecimal(parts[i]) == Some(ParseAll(parts).value[i])
  {
    if parts != [] {
      ParseAllMeaning(parts[1..]);
      if ParseDecimal(parts[0]).Some? && ParseAll(parts[1..]).Some? {
        forall i | 0 <= i < |parts|
          ensures ParseDecimal(parts[i]) == Some(ParseAll(parts).value[i])
        {
          if i > 0 {
            assert parts[i] == parts[1..][i - 1];
          }
        }
      } else if ParseDecimal(parts[0]).Some? {
        var i :| 0 <= i < |parts[1..]| && ParseDecimal(parts[1..][i]).None?;
        assert parts[i + 1] == parts[1..][i];
      }
    }
  }

  /** ip_to_int: split on '.', convert each component, weight component i by 256 ** (3 - i).
      More than four components would get fractional weights in Python; the model reports failure. */
  function IpToInt(ip: string): Option<nat>
  {
    var parts := Split(ip, '.');
    if |parts| > 4 then None
    else
      match ParseAll(parts)
      case None => None
      case Some(vals) => Some(PlaceSum(vals))
  }

  /** Canonical dotted-quad text: four canonical decimal octets in [0, 255] joined by '.' */
  predicate IsDottedQuad(s: string)
  {
    var parts := Split(s, '.');
    |parts| == 4 && forall i :: 0 <= i < 4 ==> IsCanonicalDecimal(parts[i]) && DecimalValue(parts[i]) <= 255
  }

  /** ip_to_int raises exactly when some component is not decimal text (or, in the model,
      when there are more than four components); otherwise the value is the weighted sum of
      the components. */
  lemma IpToIntDefined(ip: string)
    ensures IpToInt(ip).Some? <==>
      |Split(ip, '.')| <= 4 && forall i :: 0 <= i < |Split(ip, '.')| ==> ParseDecimal(Split(ip, '.')[i]).Some?
    ensures IpToInt(ip).Some? ==>
      var vals := ParseAll(Split(ip, '.')).value;
      && IpToInt(ip).value == PlaceSum(vals)
      && forall i :: 0 <= i < |Split(ip, '.')| ==> ParseDecimal(Split(ip, '.')[i]) == Some(vals[i])
  {
    ParseAllMeaning(Split(ip, '.'));
  }

  /** The value of dotted-quad text */
  function Address(s: string): (n: nat)
    requires IsDottedQuad(s)
    ensures IpToInt(s) == Some(n) && n < AddressCount && Dotted(n) == s
  {
    IpToIntRoundTrip(s);
    IpToInt(s).value
  }

  // ---------------------------------------------------------------- arithmetic of the octets

  lemma PlaceSumOfFour(vals: seq<nat>)
    requires |vals| == 4
    ensures PlaceSum(vals) == vals[0] * 16777216 + vals[1] * 65536 + vals[2] * 256 + vals[3]
  {
    assert Pow256(1) == 256 && Pow256(2) == 65536 && Pow256(3) == 16777216;
    assert vals[..3][..2][..1][..0] == [];
    assert PlaceSum(vals[..1]) == vals[0] * 16777216;
    assert PlaceSum(vals[..2]) == vals[0] * 16777216 + vals[1] * 65536 by {
      assert vals[..2][..1] == vals[..1];
    }
    assert PlaceSum(vals[..3]) == vals[0] * 16777216 + vals[1] * 65536 + vals[2] * 256 by {
      assert vals[..3][..2] == vals[..2];
    }
    assert vals[..4] == vals;
  }

  lemma OctetsUnfold(n: nat)
    ensures Octets(n) == [n / 16777216, (n % 16777216) / 65536,
                          (n % 16777216 % 65536) / 256, n % 16777216 % 65536 % 256]
  {
    assert Pow256(0) == 1 && Pow256(1) == 256 && Pow256(2) == 65536 && Pow256(3) == 16777216;
    var r1 := n % 16777216;
    var r2 := r1 % 65536;
    var r3 := r2 % 256;
    assert PlaceDigits(r3, 1) == [r3 / 1] + PlaceDigits(r3 % 1, 0);
    assert PlaceDigits(r2, 2) == [r2 / 256] + PlaceDigits(r3, 1);
    assert PlaceDigits(r1, 3) == [r1 / 65536] + PlaceDigits(r2, 2);
    assert PlaceDigits(n, 4) == [n / 16777216] + PlaceDigits(r1, 3);
  }

  lemma DivBelow(x: nat, d: nat, k: nat)
    requires d > 0 && x < k * d
    ensures x / d < k
  {
    DivMod(x, d);
    if x / d >= k {
      MulMonotone(k, x / d, d);
    }
  }

  /** Every address value is the weighted sum of its octets, each octet in [0, 255]. */
  lemma OctetsValue(n: nat)
    requires n < AddressCount
    ensures forall i :: 0 <= i < 4 ==> Octets(n)[i] <= 255
    ensures PlaceSum(Octets(n)) == n
  {
    OctetsUnfold(n);
    PlaceSumOfFour(Octets(n));
    var m1 := n % 16777216;
    var m2 := m1 % 65536;
    DivMod(n, 16777216);
    DivMod(m1, 65536);
    DivMod(m2, 256);
    DivBelow(n, 16777216, 256);
    DivBelow(m1, 65536, 256);
    DivBelow(m2, 256, 256);
  }

  /** Four octets in [0, 255] are recovered from their weighted sum, which is an address value. */
  lemma OctetsOfPlaceSum(vals: seq<nat>)
    requires |vals| == 4 && forall i :: 0 <= i < 4 ==> vals[i] <= 255
    ensures PlaceSum(vals) < AddressCount
    ensures Octets(PlaceSum(vals)) == vals
  {
    PlaceSumOfFour(vals);
    var n := PlaceSum(vals);
    var m2 := vals[2] * 256 + vals[3];
    var m1 := vals[1] * 65536 + m2;
    assert m2 < 65536 by { MulMonotone(vals[2], 255, 256); }
    assert m1 < 16777216 by { MulMonotone(vals[1], 255, 65536); }
    assert n < AddressCount by { MulMonotone(vals[0], 255, 16777216); }
    DivModUnique(n, 16777216, vals[0], m1);
    DivModUnique(m1, 65536, vals[1], m2);
    DivModUnique(m2, 256, vals[2], vals[3]);
    OctetsUnfold(n);
  }

  // ---------------------------------------------------------------- round trips

  lemma DecimalsHaveNoDot(ds: seq<nat>)
    ensures forall i :: 0 <= i < |DecimalAll(ds)| ==> '.' !in DecimalAll(ds)[i]
  {
    DecimalAllAt(ds);
    forall i | 0 <= i < |ds|
      ensures '.' !in DecimalAll(ds)[i]
    {
      DigitsHaveNoSeparator(Decimal(ds[i]), '.');
    }
  }

  /** int_to_ip renders every address value as a dotted quad, and ip_to_int reads it back. */
  lemma IntToIpRoundTrip(n: nat)
    requires n < AddressCount
    ensures IsDottedQuad(Dotted(n))
    ensures IpToInt(Dotted(n)) == Some(n)
  {
    var octets := Octets(n);
    var parts := DecimalAll(octets);
    OctetsValue(n);
    DecimalAllAt(octets);
    DecimalsHaveNoDot(octets);
    SplitJoin(parts, '.');
    assert Split(Dotted(n), '.') == parts;
    forall i | 0 <= i < 4
      ensures ParseDecimal(parts[i]) == Some(octets[i])
    {
      DecimalRoundTrip(octets[i]);
    }
    ParseAllMeaning(parts);
    var r := ParseAll(parts);
    assert r.Some? && r.value == octets;
  }

  /** ip_to_int on a dotted quad is the weighted sum of its octets, an address value
      that int_to_ip renders back as the same text. */
  lemma IpToIntRoundTrip(s: string)
    requires IsDottedQuad(s)
    ensures IpToInt(s) == Some(PlaceSum(OctetValues(s)))
    ensures IpToInt(s).Some? && IpToInt(s).value < AddressCount && Dotted(IpToInt(s).value) == s
  {
    var parts := Split(s, '.');
    var vals := OctetValues(s);
    assert IpToInt(s) == Some(PlaceSum(vals)) by {
      ParseAllMeaning(parts);
      var r := ParseAll(parts);
      assert r.Some? && r.value == vals;
    }
    assert PlaceSum(vals) < AddressCount && Octets(PlaceSum(vals)) == vals by {
      OctetsOfPlaceSum(vals);
    }
    assert DecimalAll(vals) == parts by {
      DecimalAllAt(vals);
      forall i | 0 <= i < 4
        ensures DecimalAll(vals)[i] == parts[i]
      {
        CanonicalRoundTrip(parts[i]);
      }
    }
    JoinSplit(s, '.');
  }

  /** The four octet values written in dotted-quad text */
  function OctetValues(s: string): (vals: seq<nat>)
    requires IsDottedQuad(s)
    ensures |vals| == 4 && forall i :: 0 <= i < 4 ==> vals[i] <= 255
  {
    var parts := Split(s, '.');
    [DecimalValue(parts[0]), DecimalValue(parts[1]), DecimalValue(parts[2]), DecimalValue(parts[3])]
  }

  /** Dotted text determines the address: two values under 2 ** 32 with the same text are equal. */
  lemma DottedInjective(m: nat, n: nat)
    requires m < AddressCount && n < AddressCount && Dotted(m) == Dotted(n)
    ensures m == n
  {
    IntToIpRoundTrip(m);
    IntToIpRoundTrip(n);
  }

  // ---------------------------------------------------------------- binary form

  /** ip_to_bin: bin(ip_to_int(ip))[2:].zfill(32). It raises exactly when ip_to_int does, and
      otherwise gives at least 32 bits whose base-2 value is the address value. */
  function IpToBin(ip: string): (r: Option<string>)
    ensures r.Some? <==> IpToInt(ip).Some?
    ensures r.Some? ==> |r.value| >= 32 && AllBits(r.value) && BinaryValue(r.value) == IpToInt(ip).value
  {
    match IpToInt(ip)
    case None => None
    case Some(n) =>
      BinaryDigitsValue(n);
      Some(ZFill(BinaryDigits(n), 32))
  }

  /** bin_to_ip: int_to_ip(int(bin_ip, 2)). It raises exactly when the text is not a non-empty
      string of binary digits. */
  function BinToIp(bin: string): (r: Option<string>)
    ensures r.Some? <==> bin != [] && AllBits(bin)
  {
    match ParseBinary(bin)
    case None => None
    case Some(n) => Some(Dotted(n))
  }

  /** At most 32 bits convert to a dotted quad whose value is their base-2 value. */
  lemma BinToIpValue(bin: string)
    requires bin != [] && AllBits(bin) && |bin| <= 32
    ensures BinToIp(bin) == Some(Dotted(BinaryValue(bin)))
    ensures IsDottedQuad(BinToIp(bin).value) && IpToInt(BinToIp(bin).value) == Some(BinaryValue(bin))
  {
    BinaryValueBound(bin);
    Pow2Monotone(|bin|, 32);
    AddressCountIsPow2();
    IntToIpRoundTrip(BinaryValue(bin));
  }

  lemma AddressCountIsPow2()
    ensures Pow2(32) == AddressCount
  {
    assert Pow2(8) == 256;
    Pow2Add(8, 8);
    Pow2Add(16, 16);
  }

  /** For an address value, ip_to_bin gives exactly 32 bits whose base-2 value is the address. */
  lemma IpToBinBits(ip: string, n: nat)
    requires IpToInt(ip) == Some(n) && n < AddressCount
    ensures IpToBin(ip) == Some(FixedBits(n, 32))
    ensures var b := IpToBin(ip).value; |b| == 32 && AllBits(b) && BinaryValue(b) == n
  {
    AddressCountIsPow2();
    ZFillBinaryDigits(n, 32);
    FixedBitsValue(n, 32);
  }

  /** Every 32-bit string survives bin_to_ip followed by ip_to_bin. */
  lemma BinToIpRoundTrip(b: string)
    requires |b| == 32 && AllBits(b)
    ensures BinToIp(b) == Some(Dotted(BinaryValue(b)))
    ensures IsDottedQuad(BinToIp(b).value)
    ensures IpToBin(BinToIp(b).value) == Some(b)
  {
    var n := BinaryValue(b);
    BinaryValueBound(b);
    AddressCountIsPow2();
    IntToIpRoundTrip(n);
    IpToBinBits(Dotted(n), n);
    FixedBitsOfValue(b);
  }

  /** Every dotted quad survives ip_to_bin followed by bin_to_ip. */
  lemma IpToBinRoundTrip(ip: string)
    requires IsDottedQuad(ip)
    ensures IpToBin(ip).Some? && BinToIp(IpToBin(ip).value) == Some(ip)
  {
    var n := Address(ip);
    IpToBinBits(ip, n);
  }
}
