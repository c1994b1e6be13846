# NSX manager VTEP pool provisioning: validation, request body and thumbprints

`configure_nsx_manager.py` prepares an NSX manager for a vCenter cluster. This
model covers its pure part:

- **`ip_mask_valid`**: the CIDR mask check. The pattern is `/\d{1,2}`, applied
  with `re.match`, plus a limit of three characters. Module `IpMask`.
- **`ip_valid`**: the dotted-quad address check. Python's
  `ipaddress.IPv4Address` does the work, and its value `int(...)` is a 32-bit
  big-endian integer. Module `IPv4`.
  - The octet rules are those of the Python 3.9.5 to 3.11 standard library.
  - The model proves them equal to the `IPv4address` / `dec-octet` grammar of
    section 3.2.2 of RFC 3986.
- **The checks of `create_vtep_ip_pool`**, in the order the script runs them.
  Module `IpPool`.
  1. Every comma-separated DNS entry must be an address.
  2. Every comma-separated range `start-end` must read as two addresses.
  3. The sum of `end - start + 1` over the ranges must reach twice the number
     of hosts.
  4. The mask is checked.
  5. The gateway is checked.

  The first failing check decides the result.
  - Each rejection carries the script's message text.
  - A range without a '-' whose text is one valid address makes the script
    die with an uncaught `IndexError`, which is modelled as the outcome
    `Crash`.
- **The `<ipamAddressPool>` XML request body** built for an accepted pool, and
  the whole function as one method: `PoolPayload.CreateVtepIpPool`. Module
  `PoolPayload`.
  - Decoders for the DNS and range elements give the body a round-trip
    partner.
- **The certificate thumbprint text** of `get_sha1_thumbprint` and
  `get_sha256_thumbprint`: the hex digest cut into pairs, joined with ':' and
  upper-cased, or "not found". Module `Thumbprint`.

The shared string operations are in `Text`:
- `str.split` and `str.join`;
- decimal numerals (`str(n)` and `int(s)`);
- ASCII `upper()`.

`PoolExamples` works through a few concrete addresses, one message, and an accepted pool.

## Model

| member | source | states |
|---|---|---|
| IpMask.MatchSlashDigits | configure_nsx_manager.py:49 | the match of `/\d{1,2}` at the start of the mask: a slash and one digit, and a second digit taken greedily when present; no match exactly when the mask is shorter than two characters, or does not start with '/' followed by a digit |
| IpMask.MaskValidIff | configure_nsx_manager.py:385-392 | the mask check accepts exactly the strings of two or three characters that begin with '/' and a digit; a third character may be anything, because the match is not anchored at the end |
| IpMask.MaskPrefix | configure_nsx_manager.py:331-332 | an accepted mask is '/' followed by a prefix text `mask[1:]` of one or two characters whose first character is a digit |
| IpMask.MaskValid | configure_nsx_manager.py:385-392 | `ip_mask_valid`: the `/\d{1,2}` match at the start and the three-character limit; its meaning is stated by MaskValidIff, MaskDigitsValue and MaskAcceptsUpTo99 |
| IpMask.MaskDigitsValue | configure_nsx_manager.py:385-392 | an accepted all-digit prefix is at most 99 |
| IpMask.MaskAcceptsUpTo99 | configure_nsx_manager.py:385-392 | every prefix from 0 to 99, as `str` prints it, is accepted after a '/', so the check does not limit a prefix to the 0..32 of IPv4 |
| IpMask.MaskExamples | configure_nsx_manager.py:385-392 | "/24", "/99", "/2x" and "/0" are accepted; "/240", "24", "/", "/a", "" and the dotted "255.255.255.0" are refused |
| IPv4.IpValid | configure_nsx_manager.py:394-405 | `ip_valid`: the address parses; IpValidIsIPv4Text states which strings these are and IpValidChars which characters they hold |
| IPv4.FormatIPv4 | configure_nsx_manager.py:336 | `str()` of an address; ParseFormatIPv4 and FormatParseIPv4 make it the inverse of the parser, and FormatIPv4Chars bounds its characters |
| IPv4.ParseOctet | configure_nsx_manager.py:401-405 | an octet the address parser accepts has a value below 256 |
| IPv4.ParseOctetIsDecOctet | configure_nsx_manager.py:401-405 | an octet is accepted exactly when it is an RFC 3986 `dec-octet`, and its value is then its decimal reading |
| IPv4.IpValidIsIPv4Text | configure_nsx_manager.py:394-405 | `ip_valid` accepts exactly the RFC 3986 `IPv4address` strings: four dec-octets separated by dots |
| IPv4.ParseDottedQuad | configure_nsx_manager.py:317-318 | four dec-octets joined by dots are accepted, and `int()` of the address is the big-endian value of the four octets |
| IPv4.ToU32 | configure_nsx_manager.py:317-318 | the integer value of an address fits in 32 bits |
| IPv4.ToU32Bytes | configure_nsx_manager.py:317-318 | the four octets are recovered from the 32-bit value, most significant first, so the conversion is injective |
| IPv4.U32FromBytes | configure_nsx_manager.py:317-318 | every 32-bit value is the value of its four bytes, so the conversion is onto |
| IPv4.ParseIPv4 | configure_nsx_manager.py:317-318 | a parsed address has a value below 2^32 |
| IPv4.ParseFormatIPv4 | configure_nsx_manager.py:336 | the printed form of any 32-bit address parses back to that address |
| IPv4.FormatParseIPv4 | configure_nsx_manager.py:335-347 | an accepted gateway prints back as exactly the text it was read from, so the body carries the argument unchanged |
| IPv4.IpValidChars | configure_nsx_manager.py:394-405 | an accepted address holds only digits and dots, so it has no ',', '-', '/' or '<' |
| IPv4.FormatIPv4Chars | configure_nsx_manager.py:336 | a printed address holds only digits and dots |
| Text.Split | configure_nsx_manager.py:300 | `str.split`: at least one field and no field holding the separator; JoinSplit, SplitJoin and SplitLength relate it to Join |
| Text.Join | configure_nsx_manager.py:422 | `str.join`; SplitJoin and JoinSplit make it the inverse of Split |
| Text.JoinSplit | configure_nsx_manager.py:300 | joining the fields of `s.split(sep)` with `sep` gives `s` back |
| Text.SplitJoin | configure_nsx_manager.py:308 | splitting a join of separator-free fields gives the fields back |
| Text.SplitLength | configure_nsx_manager.py:308 | a split has one more field than the string has separators, so an empty list still yields one (empty) field |
| Text.NatToDec | configure_nsx_manager.py:325 | `str(n)` gives a canonical numeral, starting with '0' only for 0; DecToNatOfNatToDec reads it back as `n` |
| Text.DecToNat | configure_nsx_manager.py:317-318 | `int()` of a digit string; NatToDecOfDecToNat states that `str` inverts it on canonical numerals |
| Text.IntToDec | configure_nsx_manager.py:325 | `str(i)` of any integer; IntToDecReadsBack states its reading |
| Text.IntToDecReadsBack | configure_nsx_manager.py:325 | `str(i)` starts with '-' exactly when `i` is negative, and the digits after the sign read back as the magnitude of `i` |
| Text.Upper | configure_nsx_manager.py:422 | `upper()` on ASCII text; UpperCases states its effect |
| Text.UpperCases | configure_nsx_manager.py:422 | upper-casing keeps the length, turns each lower-case letter into its capital, leaves every other character as it is, leaves no lower-case letter, and is idempotent |
| Text.DecToNatOfNatToDec | configure_nsx_manager.py:325 | a number printed by `str` reads back as that number |
| Text.NatToDecOfDecToNat | configure_nsx_manager.py:394-405 | a canonical numeral, with no leading zero, prints back as itself from its value |
| IpPool.FirstInvalidDns | configure_nsx_manager.py:302-305 | the DNS loop stops at the first entry `ip_valid` rejects; every entry before it is valid |
| IpPool.FirstUnreadRange | configure_nsx_manager.py:313-321 | the range loop stops at the first range that does not read; every range before it reads |
| IpPool.ReadRange | configure_nsx_manager.py:315-321 | one iteration of the range loop: the range, the error, or the crash; ReadRangeIff and NoEndFieldIff state when each happens |
| IpPool.ReadRanges | configure_nsx_manager.py:313-319 | the ranges of a list that reads completely; ValidateOkRanges states what they hold: one per comma-separated text, in order, each holding its first two '-' fields and their values |
| IpPool.ReadRangeIff | configure_nsx_manager.py:315-318 | a range text reads exactly when its first '-' field is an address, it has a second field, and that field is an address; the values read are those fields' 32-bit values |
| IpPool.NoEndFieldIff | configure_nsx_manager.py:316-318 | the script dies on a range exactly when the range has no '-' and is itself a valid address |
| IpPool.ReadRangeIgnoresExtraFields | configure_nsx_manager.py:316-318 | only the first two '-' fields are read: `a-b-rest` reads as `a-b` |
| IpPool.HostCount | configure_nsx_manager.py:311-319 | the `host_count` total; HostCountAppend and RangeSizeSign state how ranges add to it |
| IpPool.HostCountAppend | configure_nsx_manager.py:311-319 | the address count of two range lists in sequence is the sum of their counts |
| IpPool.RangeSizeSign | configure_nsx_manager.py:319 | a range counts `end - start + 1` addresses when its end is not below its start; a range whose end is below its start never raises the total, and one whose end lies more than one below its start lowers it |
| IpPool.DnsCheckedFirst | configure_nsx_manager.py:300-305 | the first invalid DNS entry is reported whatever the ranges, mask and gateway are |
| IpPool.RangesCheckedSecond | configure_nsx_manager.py:307-321 | once the DNS entries pass, the first range that does not read decides the result: the crash when it lacks an end field, otherwise its "invalid IP range" rejection |
| IpPool.CountCheckedThird | configure_nsx_manager.py:323-325 | once the DNS entries and ranges pass, a total below twice the host count is rejected with that total and host count, before the mask is looked at |
| IpPool.MaskCheckedBeforeGateway | configure_nsx_manager.py:327-338 | with enough addresses, a bad mask is reported even when the gateway is also bad, and a good mask leaves the gateway check to decide |
| IpPool.Validate | configure_nsx_manager.py:297-338 | the five checks in the script's order; ValidateOkIff, DnsCheckedFirst, RangesCheckedSecond, CountCheckedThird and MaskCheckedBeforeGateway state its outcome |
| IpPool.ValidateOkIff | configure_nsx_manager.py:297-338 | a pool is accepted exactly when all five checks pass: every DNS entry valid, every range read, count at least twice the hosts, mask valid, gateway valid |
| IpPool.ValidateOkPool | configure_nsx_manager.py:331-338 | an accepted pool holds the mask without its '/', the gateway's 32-bit value printing back as the gateway text, the DNS list in the order given, and at least twice the hosts in addresses |
| IpPool.ValidateOkRanges | configure_nsx_manager.py:308-319 | an accepted pool has one range per comma-separated text, in order, each holding its first two '-' fields and their values |
| IpPool.OneRange | configure_nsx_manager.py:308-318 | a list `a-b` of one range reads as the range from `a` to `b` |
| IpPool.SingleRangeAccepted | configure_nsx_manager.py:297-338 | one range and one DNS server with enough addresses, a valid mask and a valid gateway give that pool, unchanged |
| IpPool.SingleRangeTooFew | configure_nsx_manager.py:323-325 | one range with too few addresses is rejected with its size and the host count, whatever the mask and gateway are |
| IpPool.SingleAddressCrashes | configure_nsx_manager.py:314-321 | a range list that is one valid address, with no '-', ends in the uncaught index error rather than a message |
| IpPool.SecondDnsRejected | configure_nsx_manager.py:300-305 | with a valid and then an invalid DNS entry, the second is named in the rejection |
| IpPool.ErrorMessage | configure_nsx_manager.py:305-338 | the script's rejection texts; ErrorMessageDeterminesError states that they keep the errors apart |
| IpPool.ErrorMessageDeterminesError | configure_nsx_manager.py:305-338 | the rejection message tells which check failed, and for all but the count check it also names the offending text |
| PoolPayload.CreateVtepIpPool | configure_nsx_manager.py:297-364 | the function validates as the checks do; it builds a body exactly when the pool is accepted, and the body is the header, the DNS elements and the range elements of the accepted pool |
| PoolPayload.FindInvalidDns | configure_nsx_manager.py:302-305 | the DNS loop returns the position of the first invalid entry |
| PoolPayload.ReadRangeList | configure_nsx_manager.py:310-321 | the range loop fails exactly when some range does not read, with the outcome of the first such range; otherwise it returns every range and their total count |
| PoolPayload.ReadOneRange | configure_nsx_manager.py:315-321 | one iteration of the range loop reads a range exactly when its text has two '-' fields that are both addresses, and the range then holds those two texts; the script dies on it exactly when it has no '-' and is itself an address |
| PoolPayload.BuildPayload | configure_nsx_manager.py:340-364 | the string building produces the request body of the pool; AcceptedPayloadHeader, AcceptedPayloadDns and AcceptedPayloadRanges state what that body carries |
| PoolPayload.AppendDnsServers | configure_nsx_manager.py:349-353 | the DNS loop appends one numbered element per server, numbered from 1 |
| PoolPayload.AppendRanges | configure_nsx_manager.py:355-363 | the range loop appends one range element per range, in order |
| PoolPayload.NumberedElements | configure_nsx_manager.py:350-353 | the element at position i carries the number k + i and the i-th text |
| PoolPayload.RangeElements | configure_nsx_manager.py:357-362 | one element per range; RangeElementRoundTrip and AcceptedPayloadRanges state that they read back as the ranges' start and end texts, in order |
| PoolPayload.Header | configure_nsx_manager.py:340-347 | the opening of the body; AcceptedPayloadHeader states that it carries the mask without its '/' and the gateway text as given |
| PoolPayload.Payload | configure_nsx_manager.py:340-364 | the request body of a pool. For an accepted pool, AcceptedPayloadHeader states that it is a header holding `mask[1:]` and the gateway text, then the DNS elements, then the range elements, then the closing tags. AcceptedPayloadDns and AcceptedPayloadRanges state that those elements read back as the DNS entries and the range fields |
| PoolPayload.DnsServerElementRoundTrip | configure_nsx_manager.py:352 | a `dnsServerK` element whose text has no '<' reads back as its number and its text |
| PoolPayload.DnsServerOfDecode | configure_nsx_manager.py:352 | whatever reads as a DNS element is the element written for what it read |
| PoolPayload.RangeElementRoundTrip | configure_nsx_manager.py:359-362 | an `ipRangeDto` element whose endpoint texts have no '<' reads back as its start and end text |
| PoolPayload.RangeOfDecode | configure_nsx_manager.py:359-362 | whatever reads as a range element is the element written for what it read |
| PoolPayload.NumberedListRoundTrip | configure_nsx_manager.py:350-353 | a list of numbered elements reads back as its texts, numbered consecutively |
| PoolPayload.DecodeDnsElements | configure_nsx_manager.py:349-353 | the DNS elements read back as the servers in order, numbered from 1 |
| PoolPayload.AcceptedPayloadHeader | configure_nsx_manager.py:340-347 | the body of an accepted pool starts with the header carrying the mask without its '/' and the gateway text as given |
| PoolPayload.AcceptedPayloadDns | configure_nsx_manager.py:349-353 | the DNS elements of an accepted pool read back as the comma-separated DNS entries |
| PoolPayload.AcceptedPayloadRanges | configure_nsx_manager.py:355-363 | the range elements of an accepted pool read back, in order, as the first two '-' fields of each range text |
| Thumbprint.Thumbprint | configure_nsx_manager.py:407-426 | the lookup returns "not found" exactly when the connection failed; no formatted digest equals that text |
| Thumbprint.FormatDigest | configure_nsx_manager.py:422 | the digest in pairs, joined with ':' and upper-cased; FormatDigestRemoveColons, FormatDigestShape and FormatDigestLength state its shape |
| Thumbprint.Pairs | configure_nsx_manager.py:422 | the digest is cut into ceil(n/2) groups of one or two characters |
| Thumbprint.FormatDigestRemoveColons | configure_nsx_manager.py:422 | deleting the colons of a thumbprint gives the upper-cased digest back |
| Thumbprint.FormatDigestShape | configure_nsx_manager.py:443 | an even-length digest of 2n characters gives 3n - 1 characters, with ':' exactly at the positions 2 modulo 3 and the upper-cased digest characters in order elsewhere |
| Thumbprint.FormatDigestLength | configure_nsx_manager.py:422 | a digest of n characters, odd n included, gets one ':' between consecutive groups |
| Thumbprint.DigestThumbprintLengths | configure_nsx_manager.py:421-443 | a SHA-1 digest gives a 59-character thumbprint and a SHA-256 digest a 95-character one |
| PoolExamples.AddressValue | configure_nsx_manager.py:317 | "192.168.0.1" reads as 0xC0A80001 |
| PoolExamples.Quad | configure_nsx_manager.py:317 | the printed numerals of four bytes, joined by dots, read as the big-endian value of the bytes |
| PoolExamples.LeadingZeroRefused | configure_nsx_manager.py:394-405 | "192.168.01.1" is refused, because of its leading zero |
| PoolExamples.LargeOctetRefused | configure_nsx_manager.py:394-405 | "256.0.0.1" is refused |
| PoolExamples.MalformedRefused | configure_nsx_manager.py:394-405 | three fields, an address with a "/24" suffix, and the empty string are refused |
| PoolExamples.AcceptedPoolExample | configure_nsx_manager.py:297-338 | one range `a-b` with at least four addresses, the mask "/24", a valid gateway, two hosts and one valid DNS server are accepted as that pool, and the count is `end - start + 1` (10 for 192.168.0.1-192.168.0.10) |
| PoolExamples.CountMessageExample | configure_nsx_manager.py:324-325 | the count rejection for 3 addresses and 2 hosts reads "count of ip addresses (3) < (number_of_hosts (2) * 2)" |

## Left out

- The HTTPS request that posts the body and the printing of its status (lines 366-378) are not modelled; the model stops at the body it would send.
- The TLS socket, the certificate fetch and the SHA hashes in the thumbprint functions are not modelled; the hex digest, or its absence when the connection fails, is a parameter of `Thumbprint.Thumbprint`.
- Argument parsing, `main`, the REST and SOAP calls of the other steps, and the commented-out stubs are not modelled. They are I/O or unimplemented.
- `main` always passes `number_of_hosts = 2` (line 157). The model takes any integer, which covers that call.
- IpMask.MatchSlashDigits: `\d` in a Python `str` pattern also matches non-ASCII decimal digits, such as Arabic-Indic ones; only ASCII digits are modelled.
- The help text of `--VTEP_Mask` (line 69) asks for the dotted form "255.255.255.0", which the mask check refuses (`IpMask.MaskExamples`). The model follows the check.
- Nothing at line 319 checks that a range's end is not below its start. A reversed range is accepted and never raises the count (`IpPool.RangeSizeSign`).
- IPv4.ParseIPv4: follows the standard library of Python 3.9.5 to 3.11. Versions before 3.9.5 read octets with leading zeros differently. From 3.12 on, `ssl.wrap_socket` (lines 413 and 434) no longer exists, so the thumbprint functions raise before their `try` and the script no longer runs as modelled.
- The dns suffix and the DNS and range texts are put into the XML without escaping. The round-trip lemmas therefore state that the texts are free of '<', which every accepted address is (`IPv4.IpValidChars`). The suffix itself is not decoded.
- The uncaught `IndexError` on a single-address range is modelled as the outcome `Crash`; the traceback itself is not.
- Text.Upper: upper-cases ASCII letters only; the hex digest it is applied to is ASCII.
