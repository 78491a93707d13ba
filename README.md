# ip_utils: a verified model of the IPv4 whitelist engine

This project models `util.py` of ip_utils. That file decides whether a client address is on a
whitelist. Its entries are exact addresses, globs such as `192.168.1.*`, CIDR blocks such as
`192.168.1.0/24` (prefix notation as in section 3.1 of RFC 4632) and compiled regular
expressions. The model has four parts, each with its properties proved:

- `Codec` (codec.dfy) is the address codec: dotted-decimal text, the integer value and the
  32-character binary string, and the conversions `ip_to_int`, `int_to_ip`, `ip_to_bin` and
  `bin_to_ip`.
- `Cidr` (cidr.dfy) is the CIDR arithmetic: `netmask_from_cidr`, `netmask_to_binary` and
  `cidr_to_ip_range`.
- `Enumeration` (enumeration.dfy) is `increment_ip`, `gen_ip_range` and
  `gen_ip_range_from_cidr`.
- `Dispatch` (dispatch.dfy) holds the four match predicates, `route_check` and the
  first-match loop `check_ip_is_authorized`.

`Text` (text.dfy) models the Python string built-ins the code is written with: `split`, `join`,
`int`, `str`, `bin`, `zfill`, `rstrip`, `startswith` and `endswith`. `Arith` (arith.dfy) holds
powers of two and 256 with the division facts, and `Wrappers` (wrappers.dfy) holds `Option`.

The code is Python 2: `/` on integers at util.py:52 is floor division, and so is the model's.
A call that would raise in Python (`int()` on non-digits, `split('/')[1]` without a `/`) gives
`None`. The four loops of the source are methods proved equal to the functions that specify
them:

| source loop | method |
|---|---|
| `int_to_ip` | `Codec.IntToIp` |
| the zip loop of `cidr_to_ip_range` | `Cidr.CidrToIpRange` |
| the `while True` of `gen_ip_range` | `Enumeration.YieldRange` |
| `check_ip_is_authorized` | `Dispatch.CheckIpIsAuthorized` |

The assertion at tests/test_ip_utils.py:116 expects `'12.168.1.*'` to admit `192.168.1.1`.
`check_ip_in_glob` is a plain prefix test, so the code denies it. The model follows the code,
and `Dispatch.GlobOfOtherPrefixDenies` proves the denial.

## Model

| member | source | states |
|---|---|---|
| Text.SplitPieces | util.py:13 | `s.split(sep)` has one piece exactly when `sep` does not occur in `s`, and no piece contains `sep` |
| Text.Join | util.py:54 | `sep.join(parts)` starts with the first piece, followed by `sep` when there are more pieces |
| Text.ParseDecimalMeaning | util.py:13 | `int(s)` raises exactly on empty text or text with a non-digit; on canonical decimal text `str(int(s)) == s` |
| Text.BinaryDigits | util.py:40 | `bin(n)[2:]` is non-empty binary text with no leading zero unless it is `0` |
| Text.ZFill | util.py:40 | `zfill(w)` pads to length max(\|s\|, w) and keeps the base-2 value of binary text |
| Text.StartsWithConcat | util.py:134 | `s.startswith(p)` holds for p followed by anything, and only for such texts |
| Text.EndsWithLast | util.py:154 | `s.endswith(c)` looks at the last character only; the empty text ends with nothing |
| Text.JoinSplit | util.py:31 | joining the pieces of `s.split(sep)` with `sep` gives `s` back |
| Text.SplitJoin | util.py:54 | splitting a join of separator-free pieces gives exactly those pieces |
| Text.SplitFirstPiece | util.py:72 | text before the first separator is the first piece of the split |
| Text.DecimalRoundTrip | util.py:54 | `int(str(n)) == n` for every natural n |
| Text.CanonicalRoundTrip | util.py:31 | `str(int(s)) == s` for canonical decimal text: no sign, no leading zero |
| Text.Decimal | util.py:54 | `str(n)` is non-empty digits with no leading zero unless it is `0` |
| Text.BinaryDigitsValue | util.py:40 | the base-2 value of `bin(n)[2:]` is n |
| Text.ZFillBinaryDigits | util.py:40 | `bin(n)[2:].zfill(w)` is the w-bit rendering of n whenever n < 2 ** w |
| Text.FixedBitsValue | util.py:40 | the w-bit rendering of n < 2 ** w has base-2 value n |
| Text.FixedBitsOfValue | util.py:63 | rendering the value of a bit string at its own width gives the string back |
| Text.FixedBitsAt | util.py:40 | character i of the w-bit rendering is bit w - 1 - i of n: most significant first |
| Text.BinaryValueAppend | util.py:77-79 | the value of x + y is value(x) * 2 ** \|y\| + value(y) |
| Text.BinaryValueBound | util.py:63 | a string of k bits is worth less than 2 ** k |
| Text.BinaryValueOfOnesThenZeros | util.py:21 | m ones then k zeros are worth 2 ** (m + k) - 2 ** k |
| Text.RStrip | util.py:133 | `rstrip('*')` removes every trailing `*` and nothing else |
| Codec.IntToIp | util.py:43-54 | the loop returns the dotted octets of the value; below 2 ** 32 the result is a dotted quad that `ip_to_int` reads back as the value |
| Codec.ExtractDigit | util.py:51-53 | one loop step takes digit `rest / place` and leaves the remainder for the lower places |
| Codec.IpToIntDefined | util.py:25-31 | `ip_to_int` succeeds exactly when every component is decimal text (at most four of them), and then returns the weighted sum of the component values |
| Codec.IpToBin | util.py:34-40 | `ip_to_bin` fails exactly when `ip_to_int` fails; otherwise it gives at least 32 binary digits worth `ip_to_int(ip)` |
| Codec.BinToIp | util.py:57-63 | `bin_to_ip` succeeds exactly on non-empty binary text |
| Codec.BinToIpValue | util.py:57-63 | for at most 32 bits, `bin_to_ip` renders the value of the bits as a dotted quad that `ip_to_int` reads back as that value |
| Codec.ParseAllMeaning | util.py:31 | converting the components succeeds exactly when every component is decimal text, and then gives the value of each |
| Codec.OctetsValue | util.py:43-54 | each octet of a 32-bit value is at most 255, and their weighted sum is the value |
| Codec.OctetsOfPlaceSum | util.py:25-31 | four octets of at most 255 are recovered from their weighted sum, which is below 2 ** 32 |
| Codec.IntToIpRoundTrip | util.py:43-54 | every value below 2 ** 32 renders as a dotted quad, and `ip_to_int(int_to_ip(n)) == n` |
| Codec.IpToIntRoundTrip | util.py:25-31 | on a dotted quad, `ip_to_int` is the sum of octet * 256 ** (3 - i), it is below 2 ** 32, and `int_to_ip` gives the text back |
| Codec.Address | util.py:25-31 | the value of a dotted quad is what `ip_to_int` returns, it is below 2 ** 32, and it renders back as the same text |
| Codec.DottedInjective | util.py:43-54 | two values below 2 ** 32 with the same dotted text are equal |
| Codec.IpToBinBits | util.py:34-40 | for an address value n, `ip_to_bin` is the 32-bit rendering of n: 32 characters, all bits, base-2 value n |
| Codec.BinToIpRoundTrip | util.py:57-63 | every 32-bit string gives a dotted quad through `bin_to_ip`, and `ip_to_bin` of it is the string |
| Codec.IpToBinRoundTrip | util.py:34-40 | every dotted quad survives `ip_to_bin` followed by `bin_to_ip` |
| Cidr.CidrToIpRange | util.py:66-80 | the zip loop builds the masked start and end bits; the result fails exactly when the base or the prefix does not parse, and otherwise is two dotted quads with start <= end |
| Cidr.NetmaskFromCidr | util.py:8-13 | `netmask_from_cidr` succeeds only on text that contains `/` |
| Cidr.PrefixMask | util.py:21 | the mask is 32 binary digits: 32 - HostBits(n) ones then HostBits(n) zeros, so n ones for 0 <= n <= 32 |
| Cidr.NetmaskToBinary | util.py:16-22 | an integer always gives a mask; text fails exactly when its prefix length (text with `/`) or its address (text without) does not parse; every mask is at least 32 binary digits |
| Cidr.CidrRange | util.py:66-80 | `cidr_to_ip_range` fails exactly when the base address or the prefix length does not parse |
| Cidr.PrefixMaskValue | util.py:21 | the mask is worth 2 ** 32 - 2 ** HostBits(n) |
| Cidr.NetmaskOfCidrText | util.py:18-19 | a string containing `/` gives the same mask as its prefix length |
| Cidr.NetmaskOfAddressText | util.py:22 | address text falls through to `ip_to_bin`: 32 bits worth the address |
| Cidr.NetmaskOfDottedMask | util.py:16-22 | the dotted form of the n-bit mask gives the same bits as the prefix length n |
| Cidr.CidrTextRoundTrip | util.py:8-13 | from `base/str(n)`, the base text is `split('/')[0]` and `netmask_from_cidr` gives n |
| Cidr.DottedHasNoSlash | util.py:72 | dotted text contains no `/` |
| Cidr.MaskedBitsOfPrefix | util.py:77-79 | under an m-ones mask, start keeps the first m address bits then zeros, and end keeps them then ones |
| Cidr.HighBits | util.py:77-79 | the first m bits of a bit string are worth its value divided by 2 ** (length - m) |
| Cidr.BlockBits | util.py:77-79 | the start bits are worth b with its host bits cleared, and the end bits are worth that plus 2 ** k - 1 |
| Cidr.CidrRangeOfBits | util.py:72-80 | the range is `bin_to_ip` of the leading address bits padded with zeros and with ones |
| Cidr.BlockRange | util.py:80 | these bit strings give the dotted network and broadcast addresses of the 2 ** k block holding b |
| Cidr.CidrRangeBlock | util.py:66-80 | for base value b below 2 ** 32: start = b with its host bits cleared, end = b with them set, start <= b <= end, end - start + 1 = 2 ** HostBits(n); host bits in the base are masked, not rejected |
| Cidr.BinRangeOfAddresses | util.py:80 | two 32-bit strings convert to dotted quads whose values are the strings' values |
| Cidr.BinaryValuePointwise | util.py:77-79 | a bit string with a 1 wherever another has a 1 is worth at least as much |
| Cidr.CidrRangeWellFormed | util.py:66-80 | when the range succeeds it is two dotted quads with start <= end, for any base value |
| Enumeration.IncrementIp | util.py:107-113 | `increment_ip` fails exactly when `ip_to_int` fails |
| Enumeration.IncrementCarries | util.py:107-113 | below the last address, adding one carries through the octets: the last octet under 255 goes up and every 255 after it becomes 0 |
| Enumeration.IncrementIpNext | util.py:107-113 | on a dotted quad below the last address, `increment_ip` gives the dotted quad one above, with carried octets |
| Enumeration.NextAddress | util.py:92-93 | before the end, one step of the loop moves to the next value |
| Enumeration.IncrementOfDotted | util.py:113 | `increment_ip(int_to_ip(n)) == int_to_ip(n + 1)` below the last address |
| Enumeration.YieldRange | util.py:90-95 | the `while True` loop yields the texts of every value from start to end, in order |
| Enumeration.DottedRangeAt | util.py:90-95 | entry k of the yielded range is the text of start + k |
| Enumeration.GeneratedRange | util.py:83-95 | the yielded list has end - start + 1 dotted quads; entry k has value start + k; it starts at start and ends at end; each entry is `increment_ip` of the one before |
| Enumeration.RangeEntry | util.py:91 | entry k of the range is the dotted quad of value start + k |
| Enumeration.RangeLink | util.py:93 | each entry of the range is `increment_ip` of the one before |
| Enumeration.GenIpRange | util.py:83-95 | the same, for `gen_ip_range(start, end)` with start <= end; so one address when start == end, and increasing values |
| Enumeration.GenIpRangeFromCidr | util.py:98-104 | fails exactly when the CIDR does not parse; otherwise lists every address from the start to the end of `cidr_to_ip_range`, in increasing order, first entry start and last entry end; these are exactly the dotted quads `check_ip_in_cidr` accepts, 2 ** HostBits(n) of them for a base below 2 ** 32 |
| Enumeration.BlockMembersAccepted | util.py:98-104 | every enumerated address passes `check_ip_in_cidr` for its block |
| Enumeration.BlockMembersComplete | util.py:98-104 | every dotted quad that passes `check_ip_in_cidr` is enumerated |
| Enumeration.BlockSize | util.py:98-104 | a block of prefix length n spans 2 ** HostBits(n) addresses |
| Dispatch.RouteCheck | util.py:150-158 | a compiled regex and only it goes to `check_ip_in_regex`; a glob entry ends in `*`; a CIDR entry contains `/` and does not end in `*`; an exact entry has neither shape; the routed predicate carries the entry itself |
| Dispatch.CheckIpInCidr | util.py:116-124 | `check_ip_in_cidr` raises exactly when `cidr_to_ip_range` fails or the address does not parse |
| Dispatch.CheckIpInGlob | util.py:127-134 | an address that starts with the glob text is admitted, and a glob of only `*` admits every address |
| Dispatch.RouteCheckPicksFirstCandidate | util.py:150-158 | `route_check` returns the first predicate whose shape test passes, in the order regex, trailing `*`, contains `/`, exact |
| Dispatch.CheckIpIsAuthorized | util.py:161-167 | the loop returns True exactly when some entry matches and every earlier one gave False; False exactly when every entry gave False, including the empty list; it stops at the first entry that raises |
| Dispatch.AuthorizedMeaning | util.py:161-167 | the same two if-and-only-if statements for the specification |
| Dispatch.GrantedAtFirstMatch | util.py:163-166 | access is granted exactly when a first matching entry exists |
| Dispatch.DeniedWhenNoneMatch | util.py:163-167 | access is denied exactly when every entry evaluates to False |
| Dispatch.AuthorizedAppend | util.py:163-166 | entries after a match or a raise never matter; a denying list passes the decision to the entries after it |
| Dispatch.SameBlock | util.py:124 | v lies in the block of b exactly when v and b have the same quotient by the block size |
| Dispatch.CheckIpInCidrMeaning | util.py:116-124 | `check_ip_in_cidr` raises exactly when the address does not parse; otherwise it holds exactly when the address and the base agree above the host bits |
| Dispatch.GlobIsPrefixTest | util.py:127-134 | a prefix followed by any number of `*` matches exactly the addresses that start with the prefix |
| Dispatch.RegexEntryDecides | util.py:137-143 | a compiled entry always goes to `check_ip_in_regex`, which never raises; the entry grants access exactly when the pattern matches the address, and otherwise the entries after it decide |
| Dispatch.ExactMatchIsSameAddress | util.py:146-147 | on dotted quads, string equality is equality of addresses |
| Dispatch.GlobOfOtherPrefixDenies | tests/test_ip_utils.py:116 | `'12.168.1.*'` denies `192.168.1.1`, contrary to the test's expectation |
| Dispatch.GlobOfOwnPrefixGrants | tests/test_ip_utils.py:84 | `'192.168.1.*'` admits `192.168.1.1` |
| Dispatch.LaterExactEntryGrants | tests/test_ip_utils.py:114 | a non-matching exact entry is passed over and the next exact entry grants access |

## Left out

- middleware.py and decorators.py are not part of this model. They are Django request plumbing and a view attribute. middleware.py calls only `check_ip_is_authorized`, and decorators.py calls nothing in util.py.
- Regular expressions: a compiled pattern is known only through the answer `re.match` gives for a whole address (whether a match starts at its first character). Pattern syntax, and the engine that matches it, are not modelled.
- Python exceptions (`ValueError` from `int()` and `IndexError` from `split('/')[1]`) are all the single value `None`. The model does not tell them apart.
- `int()` is modelled on non-empty ASCII digit strings only. A sign, surrounding whitespace and non-ASCII digits in unicode text give `None`, where Python may accept them. So a negative prefix length such as `/-1` is outside the model.
- Cidr.NetmaskToBinary: text in the model stands for a Python 2 `str`. A `unicode` argument fails the `type(netmask) is str` test at util.py:18, so even text containing `/`, such as `u'10.0.0.0/8'`, goes to `ip_to_bin` and raises. The model gives the mask of its prefix length instead. Inside the core the only call, at util.py:75, passes an int.
- Codec.IpToInt: more than four components give `None`. Python would weight them with fractional powers 256 ** -1 and return a float.
- Generators: `gen_ip_range` and `gen_ip_range_from_cidr` return the whole list of what they yield. Lazy, partial or shared iteration is not modelled.
- Enumeration.GenIpRange: requires two dotted quads with start <= end. That holds at its only caller, `gen_ip_range_from_cidr`, whose two ends come from `bin_to_ip`. On other inputs the source behaves in ways the model does not cover. With start == end it yields once, whatever the text. A start that does not parse and differs from end is yielded, and then `increment_ip` raises. A start that parses but is not canonical (`01.2.3.4`) becomes canonical after one step, and then the loop ends when it reaches end. It runs forever when start > end, or when `end` is text that `int_to_ip` never produces. The model does not represent an unbounded generator.
- Enumeration.IncrementIpNext: requires an address below 255.255.255.255. `IncrementIp` itself still renders 2 ** 32 as `256.0.0.0`, like the source.
- Cidr.CidrRangeBlock: states the block arithmetic for base values below 2 ** 32 only. For larger bases, `Cidr.CidrRangeWellFormed` still gives two ordered dotted quads from the 32 leading bits.
- `route_check` tells a regex apart by its Python type. Whitelist entries of other Python types (ints, lists) are not modelled.
- Cidr.CidrRange: a prefix length above `sys.maxint` (2 ** 63 - 1 on a 64-bit build) is a `long` in Python 2. `netmask_to_binary` then misses its `type(netmask) is int` test and hands the number to `ip_to_bin`, which raises. So `cidr_to_ip_range('0.0.0.0/9223372036854775808')` raises, while the model returns the all-ones mask range, as for any prefix of 32 or more.
- Codec.BinToIp: `int(s, 2)` also accepts a `0b` prefix, a sign and surrounding whitespace; the model gives `None` for those. Inside `cidr_to_ip_range` the argument is always 32 binary digits, so this does not affect the range.
- The Python 3 reading of util.py:52, where `/` is float division, is not modelled.
