/** The `<ipamAddressPool>` request body `create_vtep_ip_pool` builds once
    the checks pass, and the whole function as one operation: validate, then
    serialise, and serialise nothing when a check fails. Sending the body to
    the NSX manager is not modelled.

    The body is the concatenation of the pieces the script appends, in order:
    a header with the pool name, prefix length, gateway and DNS suffix; one
    `dnsServerK` element per DNS entry, numbered from 1; the `ipRanges` list
    with one `ipRangeDto` per range; the closing tags. */
module PoolPayload {
  import opened Options
  import opened Text
  import IPv4
  import IpMask
  import opened IpPool

  const PoolName: string := "VTEP-Pool"

  /** The formatted header, with its original indentation and line breaks. */
  function Header(prefix: string, gateway: string, dnsSuffix: string): string {
    "\n    <ipamAddressPool>\n      <name>" + PoolName + "</name>\n      <prefixLength>" + prefix
      + "</prefixLength>\n      <gateway>" + gateway + "</gateway>\n      <dnsSuffix>" + dnsSuffix
      + "</dnsSuffix>\n    "
  }

  const DnsOpen: string := "  <dnsServer"
  const DnsCloseTag: string := "/dnsServer"
  const RangesOpen: string := "  <ipRanges>\n"
  const RangeOpen: string := "    <ipRangeDto>\n      <startAddress>"
  const RangeMiddle: string := "/startAddress>\n      <endAddress>"
  const RangeClose: string := "/endAddress>\n    </ipRangeDto>\n"
  const RangesClose: string := "  </ipRanges>\n"
  const PoolClose: string := "</ipamAddressPool>"

  /** An element whose tag carries the number `k`:
      `open + str(k) + ">" + text + "<" + closeTag + str(k) + ">\n"`. */
  function NumberedElement(open: string, closeTag: string, k: nat, text: string): string {
    var n := NatToDec(k);
    open + (n + ['>'] + (text + ['<'] + (closeTag + n + ['>', '\n'])))
  }

  /** An element holding two texts, each ended by the '<' of the tag after it:
      `open + a + "<" + middle + b + "<" + close`. */
  function PairElement(open: string, a: string, middle: string, b: string, close: string): string {
    open + (a + ['<'] + (middle + (b + ['<'] + close)))
  }

  /** `"  <dnsServer{0}>{1}</dnsServer{0}>\n".format(k, server)`. */
  function DnsServerElement(k: nat, server: string): string {
    NumberedElement(DnsOpen, DnsCloseTag, k, server)
  }

  /** The four lines appended for one range, holding its start and end text. */
  function RangeElement(startText: string, endText: string): string {
    PairElement(RangeOpen, startText, RangeMiddle, endText, RangeClose)
  }

  /** The concatenation of `parts`, appended left to right as `+=` does. */
  function Concat(parts: seq<string>): string {
    if |parts| == 0 then "" else Concat(parts[..|parts| - 1]) + parts[|parts| - 1]
  }

  /** The numbered elements of `texts`, numbered from `k` on. */
  function NumberedElements(open: string, closeTag: string, texts: seq<string>, k: nat): (elems: seq<string>)
    ensures |elems| == |texts|
    ensures forall i :: 0 <= i < |texts| ==> elems[i] == NumberedElement(open, closeTag, k + i, texts[i])
    decreases |texts|
  {
    if |texts| == 0 then []
    else [NumberedElement(open, closeTag, k, texts[0])] + NumberedElements(open, closeTag, texts[1..], k + 1)
  }

  /** The DNS elements of `servers`, numbered from `k` on. */
  function DnsElements(servers: seq<string>, k: nat): (elems: seq<string>)
    ensures |elems| == |servers|
    ensures forall i :: 0 <= i < |servers| ==> elems[i] == DnsServerElement(k + i, servers[i])
  {
    NumberedElements(DnsOpen, DnsCloseTag, servers, k)
  }

  /** The range elements, one per range, in order. */
  function RangeElements(ranges: seq<AddressRange>): (elems: seq<string>)
    ensures |elems| == |ranges|
    ensures forall i :: 0 <= i < |ranges| ==> elems[i] == RangeElement(ranges[i].startText, ranges[i].endText)
  {
    seq(|ranges|, i requires 0 <= i < |ranges| => RangeElement(ranges[i].startText, ranges[i].endText))
  }

  /** The request body for a validated pool: the header, the DNS elements
      numbered from 1, the ranges, the closing tags. */
  function Payload(pool: Pool, dnsSuffix: string): string
    requires pool.gateway < IPv4.TwoTo32
  {
    Header(pool.prefix, IPv4.FormatIPv4(pool.gateway), dnsSuffix)
      + Concat(DnsElements(pool.dns, 1)) + RangesOpen
      + Concat(RangeElements(pool.ranges)) + RangesClose + PoolClose
  }

  lemma AppendAssoc(a: string, b: string, c: string)
    ensures (a + b) + c == a + (b + c)
  {
  }

  lemma ConcatPrefix(parts: seq<string>, i: nat)
    requires i < |parts|
    ensures Concat(parts[..i + 1]) == Concat(parts[..i]) + parts[i]
  {
    assert parts[..i + 1][..i] == parts[..i];
  }

  // ---------------------------------------------------------------------
  // The whole of create_vtep_ip_pool, as the script runs it
  // ---------------------------------------------------------------------

  /** `create_vtep_ip_pool` up to the request: the DNS loop, the range loop
      summing `host_count`, the count, mask and gateway checks, then the
      string building. The result is the one the checks describe, and a body
      exists exactly when the pool is accepted. */
  method CreateVtepIpPool(ipPoolList: string, ipPoolMask: string, ipPoolGateway: string,
                          numberOfHosts: int, ipPoolDns: string, dnsSuffix: string)
    returns (outcome: Outcome, payload: Option<string>)
    ensures outcome == Validate(ipPoolList, ipPoolMask, ipPoolGateway, numberOfHosts, ipPoolDns)
    ensures payload.Some? <==> outcome.Ok?
    ensures outcome.Ok? ==> outcome.pool.gateway < IPv4.TwoTo32 && payload == Some(Payload(outcome.pool, dnsSuffix))
  {
    var vtepDnsList := Split(ipPoolDns, ',');
    var bad := FindInvalidDns(vtepDnsList);
    if bad < |vtepDnsList| {
      return Error(InvalidDns(vtepDnsList[bad])), None;
    }
    var vtepRange := Split(ipPoolList, ',');
    assert Validate(ipPoolList, ipPoolMask, ipPoolGateway, numberOfHosts, ipPoolDns)
        == CheckRanges(vtepRange, ipPoolMask, ipPoolGateway, numberOfHosts, vtepDnsList);
    var failure, ranges, hostCount := ReadRangeList(vtepRange);
    if failure.Some? {
      return failure.value, None;
    }
    assert Validate(ipPoolList, ipPoolMask, ipPoolGateway, numberOfHosts, ipPoolDns)
        == CheckCountMaskGateway(ranges, ipPoolMask, ipPoolGateway, numberOfHosts, vtepDnsList);
    if hostCount < 2 * numberOfHosts {
      return Error(TooFewAddresses(hostCount, numberOfHosts)), None;
    }
    if !IpMask.MaskValid(ipPoolMask) {
      return Error(InvalidMask(ipPoolMask)), None;
    }
    var vtepMask := ipPoolMask[1..];
    var vtepGateway := IPv4.ParseIPv4(ipPoolGateway);
    if vtepGateway.None? {
      return Error(InvalidGateway(ipPoolGateway)), None;
    }
    var pool := Pool(vtepMask, vtepGateway.value, vtepDnsList, ranges);
    var xml := BuildPayload(pool, dnsSuffix);
    return Ok(pool), Some(xml);
  }

  /** The DNS loop: stops at the first entry `ip_valid` rejects. */
  method FindInvalidDns(dnsList: seq<string>) returns (k: nat)
    ensures k == FirstInvalidDns(dnsList)
  {
    k := 0;
    while k < |dnsList|
      invariant k <= |dnsList|
      invariant forall j :: 0 <= j < k ==> IPv4.IpValid(dnsList[j])
    {
      if !IPv4.IpValid(dnsList[k]) {
        FirstInvalidDnsAt(dnsList, k);
        return;
      }
      k := k + 1;
    }
    FirstInvalidDnsAt(dnsList, k);
  }

  /** The range loop: reads each range and adds its size to `host_count`;
      stops with the rejection, or the crash, of the first range that does
      not read. */
  method ReadRangeList(texts: seq<string>)
    returns (failure: Option<Outcome>, ranges: seq<AddressRange>, hostCount: int)
    ensures failure.Some? <==> FirstUnreadRange(texts) < |texts|
    ensures failure.Some? ==>
      var t := texts[FirstUnreadRange(texts)];
      failure.value == if ReadRange(t).NoEndField? then Crash(t) else Error(InvalidRange(t))
    ensures failure.None? ==> ranges == ReadRanges(texts) && hostCount == HostCount(ranges)
  {
    ranges := [];
    hostCount := 0;
    var i := 0;
    while i < |texts|
      invariant 0 <= i <= |texts|
      invariant |ranges| == i
      invariant forall j :: 0 <= j < i ==> ReadRange(texts[j]) == Read(ranges[j])
      invariant hostCount == HostCount(ranges)
    {
      var read := ReadOneRange(texts[i]);
      if !read.Read? {
        FirstUnreadRangeAt(texts, i);
        failure := Some(if read.NoEndField? then Crash(texts[i]) else Error(InvalidRange(texts[i])));
        return;
      }
      var range := read.range;
      HostCountSnoc(ranges, range);
      ReadRangesStep(texts, ranges, range);
      ranges := ranges + [range];
      hostCount := hostCount + (range.end - range.start) + 1;
      i := i + 1;
    }
    ReadRangesOf(texts, ranges);
    FirstUnreadRangeAt(texts, |texts|);
    failure := None;
  }

  /** The body of the range loop for one range text: split on '-', read the
      start address, index the second field, read the end address. The
      range reads exactly when its first two '-' fields are addresses, and
      the script dies on it exactly when it is one address without a '-'. */
  method ReadOneRange(r: string) returns (read: RangeRead)
    ensures read == ReadRange(r)
    ensures var fields := Split(r, '-');
      read.Read? <==> |fields| >= 2 && IPv4.IpValid(fields[0]) && IPv4.IpValid(fields[1])
    ensures read.Read? ==> read.range.startText == Split(r, '-')[0] && read.range.endText == Split(r, '-')[1]
    ensures read.NoEndField? <==> '-' !in r && IPv4.IpValid(r)
  {
    ReadRangeIff(r);
    NoEndFieldIff(r);
    var ip := Split(r, '-');
    var ipStart := IPv4.ParseIPv4(ip[0]);
    if ipStart.None? {
      return BadAddress;
    }
    if |ip| < 2 {
      return NoEndField;
    }
    var ipEnd := IPv4.ParseIPv4(ip[1]);
    if ipEnd.None? {
      return BadAddress;
    }
    return Read(AddressRange(ip[0], ip[1], ipStart.value, ipEnd.value));
  }

  /** The string building at the end of `create_vtep_ip_pool`: the header,
      a numbered element per DNS server with the counter `dns_count` starting
      at 1, then an element per range. */
  method BuildPayload(pool: Pool, dnsSuffix: string) returns (xml: string)
    requires pool.gateway < IPv4.TwoTo32
    ensures xml == Payload(pool, dnsSuffix)
  {
    xml := Header(pool.prefix, IPv4.FormatIPv4(pool.gateway), dnsSuffix);
    xml := AppendDnsServers(xml, pool.dns);
    xml := xml + RangesOpen;
    xml := AppendRanges(xml, pool.ranges);
    xml := xml + RangesClose;
    xml := xml + PoolClose;
  }

  /** The DNS loop of the string building, `dns_count` counting from 1. */
  method AppendDnsServers(start: string, servers: seq<string>) returns (xml: string)
    ensures xml == start + Concat(DnsElements(servers, 1))
  {
    var elems := DnsElements(servers, 1);
    xml := start;
    var dnsCount := 1;
    var i := 0;
    while i < |servers|
      invariant 0 <= i <= |servers|
      invariant dnsCount == i + 1
      invariant xml == start + Concat(elems[..i])
    {
      ConcatPrefix(elems, i);
      AppendAssoc(start, Concat(elems[..i]), elems[i]);
      xml := xml + DnsServerElement(dnsCount, servers[i]);
      dnsCount := dnsCount + 1;
      i := i + 1;
    }
    assert elems[..i] == elems;
  }

  /** The range loop of the string building. */
  method AppendRanges(start: string, ranges: seq<AddressRange>) returns (xml: string)
    ensures xml == start + Concat(RangeElements(ranges))
  {
    var elems := RangeElements(ranges);
    xml := start;
    var i := 0;
    while i < |ranges|
      invariant 0 <= i <= |ranges|
      invariant xml == start + Concat(elems[..i])
    {
      ConcatPrefix(elems, i);
      AppendAssoc(start, Concat(elems[..i]), elems[i]);
      xml := xml + RangeElement(ranges[i].startText, ranges[i].endText);
      i := i + 1;
    }
    assert elems[..i] == elems;
  }

  lemma ReadRangesStep(texts: seq<string>, ranges: seq<AddressRange>, range: AddressRange)
    requires |ranges| < |texts|
    requires forall j :: 0 <= j < |ranges| ==> ReadRange(texts[j]) == Read(ranges[j])
    requires ReadRange(texts[|ranges|]) == Read(range)
    ensures forall j :: 0 <= j <= |ranges| ==> ReadRange(texts[j]) == Read((ranges + [range])[j])
  {
  }

  /** The ranges read one by one are the ranges of the texts. */
  lemma ReadRangesOf(texts: seq<string>, rs: seq<AddressRange>)
    requires |rs| == |texts|
    requires forall j :: 0 <= j < |texts| ==> ReadRange(texts[j]) == Read(rs[j])
    ensures rs == ReadRanges(texts)
  {
  }

  lemma HostCountSnoc(rs: seq<AddressRange>, r: AddressRange)
    ensures HostCount(rs + [r]) == HostCount(rs) + RangeSize(r)
  {
    assert (rs + [r])[..|rs|] == rs;
  }

  // ---------------------------------------------------------------------
  // Reading the elements back
  // ---------------------------------------------------------------------

  /** `s` cut at the first `c`: the text before and the text after it. */
  function SplitAtFirst(s: string, c: char): Option<(string, string)>
    decreases |s|
  {
    if |s| == 0 then None
    else if s[0] == c then Some(("", s[1..]))
    else
      match SplitAtFirst(s[1..], c)
      case None => None
      case Some((before, after)) => Some(([s[0]] + before, after))
  }

  lemma {:induction false} SplitAtFirstOf(a: string, c: char, b: string)
    requires c !in a
    ensures SplitAtFirst(a + [c] + b, c) == Some((a, b))
    decreases |a|
  {
    var s := a + [c] + b;
    if |a| == 0 {
      assert s[0] == c && s[1..] == b;
    } else {
      assert s[0] == a[0] && s[1..] == a[1..] + [c] + b;
      assert c !in a[1..];
      SplitAtFirstOf(a[1..], c, b);
      assert [a[0]] + a[1..] == a;
    }
  }

  lemma {:induction false} SplitAtFirstSome(s: string, c: char)
    requires SplitAtFirst(s, c).Some?
    ensures var (a, b) := SplitAtFirst(s, c).value; s == a + [c] + b && c !in a
    decreases |s|
  {
    if s[0] != c {
      SplitAtFirstSome(s[1..], c);
      assert s == [s[0]] + s[1..];
    } else {
      assert s == [c] + s[1..];
    }
  }

  lemma DropPrefix(p: string, x: string)
    ensures p <= p + x && (p + x)[|p|..] == x
  {
  }

  /** Reads an element written by NumberedElement: its number and its text. */
  function DecodeNumbered(e: string, open: string, closeTag: string): Option<(nat, string)> {
    if !(open <= e) then None
    else
      match SplitAtFirst(e[|open|..], '>')
      case None => None
      case Some((num, rest)) =>
        if !IsCanonicalDec(num) then None
        else
          match SplitAtFirst(rest, '<')
          case None => None
          case Some((text, tail)) =>
            if tail == closeTag + num + ['>', '\n'] then Some((DecToNat(num), text)) else None
  }

  lemma NumberedRoundTrip(open: string, closeTag: string, k: nat, text: string)
    requires '<' !in text
    ensures DecodeNumbered(NumberedElement(open, closeTag, k, text), open, closeTag) == Some((k, text))
  {
    var n := NatToDec(k);
    var tail := closeTag + n + ['>', '\n'];
    DropPrefix(open, n + ['>'] + (text + ['<'] + tail));
    assert '>' !in n by {
      assert forall i :: 0 <= i < |n| ==> IsDigit(n[i]);
    }
    SplitAtFirstOf(n, '>', text + ['<'] + tail);
    SplitAtFirstOf(text, '<', tail);
    DecToNatOfNatToDec(k);
  }

  lemma NumberedOfDecode(e: string, open: string, closeTag: string)
    requires DecodeNumbered(e, open, closeTag).Some?
    ensures var (k, text) := DecodeNumbered(e, open, closeTag).value;
      e == NumberedElement(open, closeTag, k, text) && '<' !in text
  {
    var rest0 := e[|open|..];
    SplitAtFirstSome(rest0, '>');
    var (num, rest) := SplitAtFirst(rest0, '>').value;
    SplitAtFirstSome(rest, '<');
    NatToDecOfDecToNat(num);
    assert e == open + rest0;
  }

  /** Reads an element written by PairElement: its two texts. */
  function DecodePair(e: string, open: string, middle: string, close: string): Option<(string, string)> {
    if !(open <= e) then None
    else
      match SplitAtFirst(e[|open|..], '<')
      case None => None
      case Some((a, rest)) =>
        if !(middle <= rest) then None
        else
          match SplitAtFirst(rest[|middle|..], '<')
          case None => None
          case Some((b, tail)) => if tail == close then Some((a, b)) else None
  }

  lemma PairRoundTrip(open: string, a: string, middle: string, b: string, close: string)
    requires '<' !in a && '<' !in b
    ensures DecodePair(PairElement(open, a, middle, b, close), open, middle, close) == Some((a, b))
  {
    var rest := middle + (b + ['<'] + close);
    DropPrefix(open, a + ['<'] + rest);
    SplitAtFirstOf(a, '<', rest);
    DropPrefix(middle, b + ['<'] + close);
    SplitAtFirstOf(b, '<', close);
  }

  lemma PairOfDecode(e: string, open: string, middle: string, close: string)
    requires DecodePair(e, open, middle, close).Some?
    ensures var (a, b) := DecodePair(e, open, middle, close).value;
      e == PairElement(open, a, middle, b, close) && '<' !in a && '<' !in b
  {
    var rest0 := e[|open|..];
    SplitAtFirstSome(rest0, '<');
    var (a, rest) := SplitAtFirst(rest0, '<').value;
    var rest1 := rest[|middle|..];
    SplitAtFirstSome(rest1, '<');
    assert rest == middle + rest1;
    assert e == open + rest0;
  }

  /** Reads one `dnsServerK` element: its number and its text. */
  function DecodeDnsServer(e: string): Option<(nat, string)> {
    DecodeNumbered(e, DnsOpen, DnsCloseTag)
  }

  /** Reads one `ipRangeDto` element: its start and end text. */
  function DecodeRange(e: string): Option<(string, string)> {
    DecodePair(e, RangeOpen, RangeMiddle, RangeClose)
  }

  /** A DNS element whose text has no '<' reads back as its number and text. */
  lemma DnsServerElementRoundTrip(k: nat, server: string)
    requires '<' !in server
    ensures DecodeDnsServer(DnsServerElement(k, server)) == Some((k, server))
  {
    NumberedRoundTrip(DnsOpen, DnsCloseTag, k, server);
  }

  /** Whatever reads as a DNS element is the element of what it read. */
  lemma DnsServerOfDecode(e: string)
    requires DecodeDnsServer(e).Some?
    ensures var (k, server) := DecodeDnsServer(e).value; e == DnsServerElement(k, server) && '<' !in server
  {
    NumberedOfDecode(e, DnsOpen, DnsCloseTag);
  }

  /** A range element whose endpoint texts have no '<' reads back as those
      texts. */
  lemma RangeElementRoundTrip(startText: string, endText: string)
    requires '<' !in startText && '<' !in endText
    ensures DecodeRange(RangeElement(startText, endText)) == Some((startText, endText))
  {
    PairRoundTrip(RangeOpen, startText, RangeMiddle, endText, RangeClose);
  }

  /** Whatever reads as a range element is the element of what it read. */
  lemma RangeOfDecode(e: string)
    requires DecodeRange(e).Some?
    ensures var (s, t) := DecodeRange(e).value; e == RangeElement(s, t) && '<' !in s && '<' !in t
  {
    PairOfDecode(e, RangeOpen, RangeMiddle, RangeClose);
  }

  /** Reads a list of numbered elements whose numbers run from `k` on. */
  function DecodeNumberedList(elems: seq<string>, open: string, closeTag: string, k: nat): Option<seq<string>>
    decreases |elems|
  {
    if |elems| == 0 then Some([])
    else
      match DecodeNumbered(elems[0], open, closeTag)
      case None => None
      case Some((n, text)) =>
        if n != k then None
        else
          match DecodeNumberedList(elems[1..], open, closeTag, k + 1)
          case None => None
          case Some(rest) => Some([text] + rest)
  }

  lemma {:induction false} NumberedListRoundTrip(open: string, closeTag: string, texts: seq<string>, k: nat)
    requires forall i :: 0 <= i < |texts| ==> '<' !in texts[i]
    ensures DecodeNumberedList(NumberedElements(open, closeTag, texts, k), open, closeTag, k) == Some(texts)
    decreases |texts|
  {
    if |texts| > 0 {
      var elems := NumberedElements(open, closeTag, texts, k);
      assert elems[1..] == NumberedElements(open, closeTag, texts[1..], k + 1);
      NumberedRoundTrip(open, closeTag, k, texts[0]);
      NumberedListRoundTrip(open, closeTag, texts[1..], k + 1);
      DecodeNumberedListCons(elems, open, closeTag, k, texts[0], texts[1..]);
      assert texts == [texts[0]] + texts[1..];
    }
  }

  /** One step of DecodeNumberedList: a first element numbered `k` followed
      by a list that reads from `k + 1` on. */
  lemma DecodeNumberedListCons(elems: seq<string>, open: string, closeTag: string, k: nat,
                               text: string, rest: seq<string>)
    requires 0 < |elems|
    requires DecodeNumbered(elems[0], open, closeTag) == Some((k, text))
    requires DecodeNumberedList(elems[1..], open, closeTag, k + 1) == Some(rest)
    ensures DecodeNumberedList(elems, open, closeTag, k) == Some([text] + rest)
  {
  }

  /** Reads a list of DNS elements numbered consecutively from `k`. */
  function DecodeDnsServers(elems: seq<string>, k: nat): Option<seq<string>> {
    DecodeNumberedList(elems, DnsOpen, DnsCloseTag, k)
  }

  /** The DNS elements of '<'-free servers read back as those servers, in
      order, numbered k, k + 1, ... */
  lemma DecodeDnsElements(servers: seq<string>, k: nat)
    requires forall i :: 0 <= i < |servers| ==> '<' !in servers[i]
    ensures DecodeDnsServers(DnsElements(servers, k), k) == Some(servers)
  {
    NumberedListRoundTrip(DnsOpen, DnsCloseTag, servers, k);
  }

  lemma RangeDecodes(r: AddressRange)
    requires IPv4.IpValid(r.startText) && IPv4.IpValid(r.endText)
    ensures DecodeRange(RangeElement(r.startText, r.endText)) == Some((r.startText, r.endText))
  {
    IPv4.IpValidChars(r.startText);
    IPv4.IpValidChars(r.endText);
    RangeElementRoundTrip(r.startText, r.endText);
  }

  // ---------------------------------------------------------------------
  // The body of an accepted pool
  // ---------------------------------------------------------------------

  /** The body of an accepted pool carries the mask without its '/' as the
      prefix length and the gateway text unchanged. */
  lemma AcceptedPayloadHeader(ipPoolList: string, ipPoolMask: string, ipPoolGateway: string,
                              numberOfHosts: int, ipPoolDns: string, dnsSuffix: string)
    requires Validate(ipPoolList, ipPoolMask, ipPoolGateway, numberOfHosts, ipPoolDns).Ok?
    ensures var p := Validate(ipPoolList, ipPoolMask, ipPoolGateway, numberOfHosts, ipPoolDns).pool;
      && p.gateway < IPv4.TwoTo32
      && Payload(p, dnsSuffix) == Header(ipPoolMask[1..], ipPoolGateway, dnsSuffix)
           + Concat(DnsElements(p.dns, 1)) + RangesOpen + Concat(RangeElements(p.ranges)) + RangesClose + PoolClose
  {
    ValidateOkPool(ipPoolList, ipPoolMask, ipPoolGateway, numberOfHosts, ipPoolDns);
  }

  /** The DNS elements of an accepted pool read back as the comma-separated
      DNS entries, in input order, numbered from 1. */
  lemma AcceptedPayloadDns(ipPoolList: string, ipPoolMask: string, ipPoolGateway: string,
                           numberOfHosts: int, ipPoolDns: string)
    requires Validate(ipPoolList, ipPoolMask, ipPoolGateway, numberOfHosts, ipPoolDns).Ok?
    ensures var p := Validate(ipPoolList, ipPoolMask, ipPoolGateway, numberOfHosts, ipPoolDns).pool;
      DecodeDnsServers(DnsElements(p.dns, 1), 1) == Some(Split(ipPoolDns, ','))
  {
    ValidateOkPool(ipPoolList, ipPoolMask, ipPoolGateway, numberOfHosts, ipPoolDns);
    var p := Validate(ipPoolList, ipPoolMask, ipPoolGateway, numberOfHosts, ipPoolDns).pool;
    forall j | 0 <= j < |p.dns|
      ensures '<' !in p.dns[j]
    {
      IPv4.IpValidChars(p.dns[j]);
    }
    DecodeDnsElements(p.dns, 1);
  }

  /** The range elements of an accepted pool read back, in order, as the
      first two '-' fields of each comma-separated range text. */
  lemma AcceptedPayloadRanges(ipPoolList: string, ipPoolMask: string, ipPoolGateway: string,
                              numberOfHosts: int, ipPoolDns: string)
    requires Validate(ipPoolList, ipPoolMask, ipPoolGateway, numberOfHosts, ipPoolDns).Ok?
    ensures var p := Validate(ipPoolList, ipPoolMask, ipPoolGateway, numberOfHosts, ipPoolDns).pool;
      var rangeElems := RangeElements(p.ranges);
      var texts := Split(ipPoolList, ',');
      && |rangeElems| == |texts|
      && (forall j :: 0 <= j < |texts| ==>
            && |Split(texts[j], '-')| >= 2
            && DecodeRange(rangeElems[j]) == Some((Split(texts[j], '-')[0], Split(texts[j], '-')[1])))
  {
    ValidateOkRanges(ipPoolList, ipPoolMask, ipPoolGateway, numberOfHosts, ipPoolDns);
    var p := Validate(ipPoolList, ipPoolMask, ipPoolGateway, numberOfHosts, ipPoolDns).pool;
    var rangeElems := RangeElements(p.ranges);
    forall j | 0 <= j < |p.ranges|
      ensures DecodeRange(rangeElems[j]) == Some((p.ranges[j].startText, p.ranges[j].endText))
    {
      RangeDecodes(p.ranges[j]);
    }
  }

}
