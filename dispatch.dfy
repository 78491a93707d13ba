/** The match predicates of util.py, the shape-based dispatch route_check, and the
    first-match authorization check check_ip_is_authorized. */
module Dispatch {
  import opened Wrappers
  import opened Arith
  import opened Text
  import opened Codec
  import opened Cidr

  /** A compiled regular expression, known only through the answer re.match gives for a
      whole address: whether a match starts at the first character. Anchors such as '$' and
      lookahead see the whole address, so the answer is not determined by any one prefix.
      The pattern's syntax and the matching engine are not modelled. */
  datatype Regex = Regex(matches: string -> bool)

  /** An entry of a whitelist: a compiled regex object or a string. route_check tells them
      apart by type, as Python does at run time. */
  datatype Rule = Compiled(regex: Regex) | Literal(text: string)

  /** The predicate route_check returns, together with the entry it is applied to. */
  datatype Check =
    | InRegex(regex: Regex)
    | InGlob(glob: string)
    | InCidr(cidr: string)
    | IsIp(address: string)

  // ---------------------------------------------------------------- the four predicates

  /** check_ip_in_cidr: start <= ip <= end, as integers, for the range of the block. The chained
      comparison reads ip_to_int(end) only when the first comparison holds. */
  function CheckIpInCidr(ip: string, cidr: string): (r: Option<bool>)
    ensures r.Some? <==> CidrRange(cidr).Some? && IpToInt(ip).Some?
  {
    CidrRangeWellFormed(cidr);
    match CidrRange(cidr)
    case None => None
    case Some((start, end)) =>
      assert IpToInt(start) == Some(Address(start)) && IpToInt(end) == Some(Address(end));
      match (IpToInt(start), IpToInt(ip))
      case (Some(s), Some(v)) =>
        if s <= v then
          (match IpToInt(end)
           case Some(e) => Some(v <= e)
           case None => None)
        else Some(false)
      case _ => None
  }

  /** check_ip_in_glob: strip every trailing '*', then a plain prefix test. */
  function CheckIpInGlob(ip: string, glob: string): (r: bool)
    ensures StartsWith(ip, glob) ==> r
    ensures (forall i :: 0 <= i < |glob| ==> glob[i] == '*') ==> r
  {
    var prefix := RStrip(glob, '*');
    assert prefix == glob[..|prefix|];
    assert (forall i :: 0 <= i < |glob| ==> glob[i] == '*') ==> prefix == [] by {
      if prefix != [] {
        assert glob[|prefix| - 1] == prefix[|prefix| - 1];
      }
    }
    StartsWith(ip, prefix)
  }

  /** check_ip_in_regex: re.match(regex, ip) is not None */
  function CheckIpInRegex(ip: string, regex: Regex): bool
  {
    regex.matches(ip)
  }

  /** check_ip_is_ip: string equality */
  function CheckIpIsIp(ip: string, possMatch: string): bool
  {
    ip == possMatch
  }

  // ---------------------------------------------------------------- dispatch

  /** route_check: a compiled regex, else a string ending in '*', else one containing '/',
      else an exact address; the first shape test that passes decides. */
  function RouteCheck(possMatch: Rule): (r: Check)
    ensures possMatch.Compiled? <==> r.InRegex?
    ensures r.InGlob? ==> possMatch == Literal(r.glob) && EndsWith(r.glob, '*')
    ensures r.InCidr? ==> possMatch == Literal(r.cidr) && '/' in r.cidr && !EndsWith(r.cidr, '*')
    ensures r.IsIp? ==> possMatch == Literal(r.address) && '/' !in r.address && !EndsWith(r.address, '*')
  {
    match possMatch
    case Compiled(re) => InRegex(re)
    case Literal(s) =>
      if EndsWith(s, '*') then InGlob(s)
      else if '/' in s then InCidr(s)
      else IsIp(s)
  }

  /** func(ip, poss_match) for the routed predicate; None where Python raises. */
  function Apply(check: Check, ip: string): Option<bool>
  {
    match check
    case InRegex(re) => Some(CheckIpInRegex(ip, re))
    case InGlob(glob) => Some(CheckIpInGlob(ip, glob))
    case InCidr(cidr) => CheckIpInCidr(ip, cidr)
    case IsIp(address) => Some(CheckIpIsIp(ip, address))
  }

  /** The result of checking one entry of the whitelist */
  function Matches(ip: string, possMatch: Rule): Option<bool>
  {
    Apply(RouteCheck(possMatch), ip)
  }

  /** Every predicate whose shape test the entry passes, in route_check's priority order:
      an independent statement of which shapes an entry has. */
  function Candidates(possMatch: Rule): seq<Check>
  {
    match possMatch
    case Compiled(re) => [InRegex(re)]
    case Literal(s) =>
      (if EndsWith(s, '*') then [InGlob(s)] else [])
      + (if '/' in s then [InCidr(s)] else [])
      + [IsIp(s)]
  }

  /** route_check picks the earliest candidate: a string that both ends in '*' and contains
      '/' is a glob, and a string with neither shape is an exact address. */
  lemma RouteCheckPicksFirstCandidate(possMatch: Rule)
    ensures |Candidates(possMatch)| >= 1
    ensures RouteCheck(possMatch) == Candidates(possMatch)[0]
    ensures possMatch.Literal? ==> !RouteCheck(possMatch).InRegex?
  {
  }

  // ---------------------------------------------------------------- authorization

  /** What check_ip_is_authorized returns: the first entry that matches grants access, an
      exhausted list (the empty list included) denies it, and an entry whose predicate
      raises aborts the whole check (None). */
  function Authorized(ip: string, possMatches: seq<Rule>): Option<bool>
  {
    if possMatches == [] then Some(false)
    else
      match Matches(ip, possMatches[0])
      case None => None
      case Some(true) => Some(true)
      case Some(false) => Authorized(ip, possMatches[1..])
  }

  /** check_ip_is_authorized: the entries in order, returning at the first that matches. */
  method CheckIpIsAuthorized(ip: string, possMatches: seq<Rule>) returns (r: Option<bool>)
    ensures r == Authorized(ip, possMatches)
    ensures r == Some(true) <==> exists i :: 0 <= i < |possMatches| && FirstMatchAt(ip, possMatches, i)
    ensures r == Some(false) <==> forall i :: 0 <= i < |possMatches| ==> Matches(ip, possMatches[i]) == Some(false)
  {
    AuthorizedMeaning(ip, possMatches);
    for i := 0 to |possMatches|
      invariant forall j :: 0 <= j < i ==> Matches(ip, possMatches[j]) == Some(false)
      invariant Authorized(ip, possMatches) == Authorized(ip, possMatches[i..])
    {
      var func := RouteCheck(possMatches[i]);
      var result := Apply(func, ip);
      if result.None? {
        return None;
      }
      if result.value {
        return Some(true);
      }
      assert possMatches[i..][1..] == possMatches[i + 1..];
    }
    return Some(false);
  }

  /** Entry i is the first entry that matches: every earlier one evaluated to false. */
  predicate FirstMatchAt(ip: string, possMatches: seq<Rule>, i: nat)
    requires i < |possMatches|
  {
    && Matches(ip, possMatches[i]) == Some(true)
    && forall j :: 0 <= j < i ==> Matches(ip, possMatches[j]) == Some(false)
  }

  /** Access is granted exactly when some entry matches and every entry before it evaluated
      to false; denied exactly when every entry evaluated to false (so the empty list denies). */
  lemma AuthorizedMeaning(ip: string, possMatches: seq<Rule>)
    ensures Authorized(ip, possMatches) == Some(true)
        <==> exists i :: 0 <= i < |possMatches| && FirstMatchAt(ip, possMatches, i)
    ensures Authorized(ip, possMatches) == Some(false)
        <==> forall i :: 0 <= i < |possMatches| ==> Matches(ip, possMatches[i]) == Some(false)
  {
    GrantedAtFirstMatch(ip, possMatches);
    DeniedWhenNoneMatch(ip, possMatches);
  }

  lemma {:induction false} GrantedAtFirstMatch(ip: string, possMatches: seq<Rule>)
    ensures Authorized(ip, possMatches) == Some(true)
        <==> exists i :: 0 <= i < |possMatches| && FirstMatchAt(ip, possMatches, i)
    decreases |possMatches|
  {
    if possMatches != [] {
      var rest := possMatches[1..];
      GrantedAtFirstMatch(ip, rest);
      var first := Matches(ip, possMatches[0]);
      if first == Some(true) {
        assert FirstMatchAt(ip, possMatches, 0);
      } else if first == Some(false) {
        if Authorized(ip, rest) == Some(true) {
          var i :| 0 <= i < |rest| && FirstMatchAt(ip, rest, i);
          assert FirstMatchAt(ip, possMatches, i + 1);
        }
        if exists i :: 0 <= i < |possMatches| && FirstMatchAt(ip, possMatches, i) {
          var i :| 0 <= i < |possMatches| && FirstMatchAt(ip, possMatches, i);
          assert i > 0 && FirstMatchAt(ip, rest, i - 1);
        }
      } else {
        forall i | 0 <= i < |possMatches|
          ensures !FirstMatchAt(ip, possMatches, i)
        {
          if i > 0 {
            assert Matches(ip, possMatches[0]) == first;
          }
        }
      }
    }
  }

  lemma {:induction false} DeniedWhenNoneMatch(ip: string, possMatches: seq<Rule>)
    ensures Authorized(ip, possMatches) == Some(false)
        <==> forall i :: 0 <= i < |possMatches| ==> Matches(ip, possMatches[i]) == Some(false)
    decreases |possMatches|
  {
    if possMatches != [] {
      var rest := possMatches[1..];
      DeniedWhenNoneMatch(ip, rest);
      if Matches(ip, possMatches[0]) == Some(false)
        && forall i :: 0 <= i < |rest| ==> Matches(ip, rest[i]) == Some(false)
      {
        forall i | 0 <= i < |possMatches|
          ensures Matches(ip, possMatches[i]) == Some(false)
        {
          if i > 0 {
            assert possMatches[i] == rest[i - 1];
          }
        }
      }
    }
  }

  /** Evaluation is left to right and stops at the first decisive entry: entries after a
      match, or after an entry that raises, never change the outcome, and a list that
      denies hands the decision to whatever follows it. */
  lemma {:induction false} AuthorizedAppend(ip: string, possMatches: seq<Rule>, more: seq<Rule>)
    ensures Authorized(ip, possMatches + more)
         == if Authorized(ip, possMatches) == Some(false) then Authorized(ip, more)
            else Authorized(ip, possMatches)
    decreases |possMatches|
  {
    if possMatches == [] {
      assert possMatches + more == more;
    } else {
      assert (possMatches + more)[0] == possMatches[0];
      assert (possMatches + more)[1..] == possMatches[1..] + more;
      AuthorizedAppend(ip, possMatches[1..], more);
    }
  }

  // ---------------------------------------------------------------- properties of the predicates

  lemma SameBlock(v: nat, b: nat, p: nat)
    requires p > 0
    ensures (b / p * p <= v <= b / p * p + p - 1) <==> v / p == b / p
  {
    DivMod(v, p);
    DivNonNeg(b, p);
    if b / p * p <= v <= b / p * p + p - 1 {
      DivModUnique(v, p, b / p, v - b / p * p);
    }
  }

  /** check_ip_in_cidr raises exactly when the block or the address does not parse; otherwise
      the address v is inside the block of base b and prefix length n exactly when v and b
      agree on their leading bits, those above the HostBits(n) host bits. */
  lemma CheckIpInCidrMeaning(ip: string, cidr: string, b: nat, n: nat)
    requires IpToInt(BaseAddress(cidr)) == Some(b) && b < AddressCount
    requires NetmaskFromCidr(cidr) == Some(n)
    ensures CheckIpInCidr(ip, cidr).Some? <==> IpToInt(ip).Some?
    ensures IpToInt(ip).Some? ==>
      CheckIpInCidr(ip, cidr) == Some(IpToInt(ip).value / Pow2(HostBits(n)) == b / Pow2(HostBits(n)))
  {
    CidrRangeBlock(cidr, b, n);
    var (start, end) := CidrRange(cidr).value;
    var k := HostBits(n);
    var p := Pow2(k);
    var s, e := Address(start), Address(end);
    assert s == b / p * p && e == s + p - 1;
    if IpToInt(ip).Some? {
      var v := IpToInt(ip).value;
      assert CheckIpInCidr(ip, cidr) == Some(s <= v <= e) by {
        CheckIpInCidrOfValues(ip, cidr, s, e, v);
      }
      SameBlock(v, b, p);
    }
  }

  /** check_ip_in_cidr once the three texts have been converted */
  lemma CheckIpInCidrOfValues(ip: string, cidr: string, s: nat, e: nat, v: nat)
    requires CidrRange(cidr).Some?
    requires IpToInt(CidrRange(cidr).value.0) == Some(s) && IpToInt(CidrRange(cidr).value.1) == Some(e)
    requires IpToInt(ip) == Some(v)
    ensures CheckIpInCidr(ip, cidr) == Some(s <= v <= e)
  {
  }

  /** For a dotted-quad address and a block whose range parsed, check_ip_in_cidr is the
      inclusive interval test on addresses. */
  lemma CheckIpInCidrOfDottedQuads(ip: string, cidr: string)
    requires CidrRange(cidr).Some? && IsDottedQuad(ip)
    requires IsDottedQuad(CidrRange(cidr).value.0) && IsDottedQuad(CidrRange(cidr).value.1)
    ensures CheckIpInCidr(ip, cidr)
         == Some(Address(CidrRange(cidr).value.0) <= Address(ip) <= Address(CidrRange(cidr).value.1))
  {
    CheckIpInCidrOfValues(ip, cidr, Address(CidrRange(cidr).value.0), Address(CidrRange(cidr).value.1), Address(ip));
  }

  /** A glob written as a literal prefix followed by any number of '*' matches exactly the
      addresses that start with that prefix; there is no wildcard inside the text. */
  lemma GlobIsPrefixTest(ip: string, prefix: string, stars: nat)
    requires !EndsWith(prefix, '*')
    ensures CheckIpInGlob(ip, prefix + Repeat('*', stars)) == StartsWith(ip, prefix)
  {
    var glob := prefix + Repeat('*', stars);
    var r := RStrip(glob, '*');
    assert forall j :: |r| <= j < |glob| ==> glob[j] == '*';
    assert forall j :: |prefix| <= j < |glob| ==> glob[j] == '*';
    assert |prefix| > 0 ==> glob[|prefix| - 1] == prefix[|prefix| - 1] != '*';
    assert |r| > 0 ==> glob[|r| - 1] == r[|r| - 1] != '*';
    assert |r| == |prefix|;
    assert r == glob[..|r|] == prefix;
  }

  /** A compiled entry is routed to check_ip_in_regex whatever pattern it holds, and that
      check never raises: the entry grants access exactly when re.match finds a match at the
      start of the address, and otherwise hands the decision to the entries after it. */
  lemma {:induction false} RegexEntryDecides(ip: string, regex: Regex, more: seq<Rule>)
    ensures RouteCheck(Compiled(regex)) == InRegex(regex)
    ensures Matches(ip, Compiled(regex)) == Some(regex.matches(ip))
    ensures Authorized(ip, [Compiled(regex)] + more)
         == if regex.matches(ip) then Some(true) else Authorized(ip, more)
  {
    assert ([Compiled(regex)] + more)[1..] == more;
  }

  /** On dotted-quad text the exact predicate is equality of addresses. */
  lemma ExactMatchIsSameAddress(ip: string, address: string)
    requires IsDottedQuad(ip) && IsDottedQuad(address)
    ensures CheckIpIsIp(ip, address) <==> Address(ip) == Address(address)
  {
  }

  // ---------------------------------------------------------------- whitelists from the test suite

  /** '12.168.1.*' is a prefix test, not a substring search: it does not admit 192.168.1.1. */
  lemma GlobOfOtherPrefixDenies()
    ensures Authorized("192.168.1.1", [Literal("12.168.1.*")]) == Some(false)
  {
    assert RStrip("12.168.1.*", '*') == "12.168.1.";
  }

  lemma GlobOfOwnPrefixGrants()
    ensures Authorized("192.168.1.1", [Literal("192.168.1.*")]) == Some(true)
  {
    assert RStrip("192.168.1.*", '*') == "192.168.1.";
  }

  /** A non-matching exact entry is passed over and the next one grants access. */
  lemma LaterExactEntryGrants()
    ensures Authorized("192.168.1.1", [Literal("127.0.0.1"), Literal("192.168.1.1")]) == Some(true)
  {
    var ip := "192.168.1.1";
    var other, same := Literal("127.0.0.1"), Literal("192.168.1.1");
    assert RouteCheck(other) == IsIp("127.0.0.1") by {
      assert "127.0.0.1"[8] == '1' && '/' !in "127.0.0.1";
    }
    assert RouteCheck(same) == IsIp(ip) by {
      assert ip[10] == '1' && '/' !in ip;
    }
    assert Matches(ip, other) == Some(false) by {
      assert |"127.0.0.1"| != |ip|;
    }
    assert Authorized(ip, [same]) == Some(true);
    assert [other, same][1..] == [same];
  }
}
