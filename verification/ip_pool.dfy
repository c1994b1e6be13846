/** The validation half of `create_vtep_ip_pool`: the checks that run, in a
    fixed order, before any payload is built or any request is sent.

      1. the DNS list, split on ',', every entry an IPv4 address;
      2. the range list, split on ',', each range split on '-', its first two
         fields read as IPv4 addresses and `end - start + 1` summed;
      3. the sum against twice the number of hosts;
      4. the CIDR mask;
      5. the gateway address.

    The first failing check decides the `(-1, message)` result. A range whose
    start address is valid but which has no '-' makes the script index a
    missing field; that IndexError is not caught, so it is modelled as a
    separate Crash outcome rather than as a rejection. */
module IpPool {
  import opened Options
  import opened Text
  import IPv4
  import IpMask

  /** The script demands this many addresses per prepared host. */
  const AddressesPerHost: int := 2

  /** One `start-end` range as read by the script: the text of its two
      endpoints, unchanged, and their 32-bit values. */
  datatype AddressRange = AddressRange(startText: string, endText: string, start: nat, end: nat)

  /** The validated pool: the prefix length text (the mask without its '/'),
      the gateway address, the DNS entries and the ranges, in input order. */
  datatype Pool = Pool(prefix: string, gateway: nat, dns: seq<string>, ranges: seq<AddressRange>)

  /** The five ways the checks can reject a pool; each carries what the
      script puts into its message. */
  datatype PoolError =
    | InvalidDns(entry: string)
    | InvalidRange(range: string)
    | TooFewAddresses(count: int, hosts: int)
    | InvalidMask(mask: string)
    | InvalidGateway(gateway: string)

  /** Result of the checks: an accepted pool, a rejection, or the uncaught
      IndexError raised while reading the named range. */
  datatype Outcome = Ok(pool: Pool) | Error(error: PoolError) | Crash(range: string)

  /** How reading one range ends. */
  datatype RangeRead =
    | Read(range: AddressRange)
    | BadAddress   // AddressValueError: caught, the pool is rejected
    | NoEndField   // IndexError on the second field: not caught

  /** The body of the range loop for one range text: split on '-', read the
      first field, then the second; later fields are ignored. */
  function ReadRange(text: string): RangeRead {
    var fields := Split(text, '-');
    match IPv4.ParseIPv4(fields[0])
    case None => BadAddress
    case Some(start) =>
      if |fields| < 2 then NoEndField
      else
        match IPv4.ParseIPv4(fields[1])
        case None => BadAddress
        case Some(end) => Read(AddressRange(fields[0], fields[1], start, end))
  }

  /** `(ip_end - ip_start) + 1`. Nothing checks that the end is not below
      the start, so a reversed range adds zero or a negative amount. */
  function RangeSize(r: AddressRange): int {
    r.end - r.start + 1
  }

  /** `host_count` after the loop has added the sizes of `rs` in order. */
  function HostCount(rs: seq<AddressRange>): int {
    if |rs| == 0 then 0 else HostCount(rs[..|rs| - 1]) + RangeSize(rs[|rs| - 1])
  }

  /** Position of the first DNS entry `ip_valid` rejects, or the number of
      entries when there is none. */
  function FirstInvalidDns(entries: seq<string>): (k: nat)
    ensures k <= |entries|
    ensures forall j :: 0 <= j < k ==> IPv4.IpValid(entries[j])
    ensures k < |entries| ==> !IPv4.IpValid(entries[k])
  {
    if |entries| == 0 then 0
    else if !IPv4.IpValid(entries[0]) then 0
    else 1 + FirstInvalidDns(entries[1..])
  }

  /** Position of the first range text that does not read as a range, or
      the number of texts when all of them do. */
  function FirstUnreadRange(texts: seq<string>): (k: nat)
    ensures k <= |texts|
    ensures forall j :: 0 <= j < k ==> ReadRange(texts[j]).Read?
    ensures k < |texts| ==> !ReadRange(texts[k]).Read?
  {
    if |texts| == 0 then 0
    else if !ReadRange(texts[0]).Read? then 0
    else 1 + FirstUnreadRange(texts[1..])
  }

  /** The ranges of texts that all read successfully, in order. */
  function ReadRanges(texts: seq<string>): (rs: seq<AddressRange>)
    requires forall j :: 0 <= j < |texts| ==> ReadRange(texts[j]).Read?
    ensures |rs| == |texts|
    ensures forall j :: 0 <= j < |texts| ==> ReadRange(texts[j]) == Read(rs[j])
  {
    seq(|texts|, j requires 0 <= j < |texts| => ReadRange(texts[j]).range)
  }

  /** The first invalid DNS entry is the one before which all entries pass. */
  lemma {:induction false} FirstInvalidDnsAt(entries: seq<string>, k: nat)
    requires k <= |entries|
    requires forall j :: 0 <= j < k ==> IPv4.IpValid(entries[j])
    requires k < |entries| ==> !IPv4.IpValid(entries[k])
    ensures FirstInvalidDns(entries) == k
  {
    if 0 < k {
      assert IPv4.IpValid(entries[0]);
      FirstInvalidDnsAt(entries[1..], k - 1);
    }
  }

  /** The first unread range is the one before which all ranges read. */
  lemma {:induction false} FirstUnreadRangeAt(texts: seq<string>, k: nat)
    requires k <= |texts|
    requires forall j :: 0 <= j < k ==> ReadRange(texts[j]).Read?
    requires k < |texts| ==> !ReadRange(texts[k]).Read?
    ensures FirstUnreadRange(texts) == k
  {
    if 0 < k {
      assert ReadRange(texts[0]).Read?;
      FirstUnreadRangeAt(texts[1..], k - 1);
    }
  }

  /** The checks of `create_vtep_ip_pool` on its string arguments
      `ip_pool_list`, `ip_pool_mask`, `ip_pool_gateway`, `ip_pool_dns` and its
      integer `number_of_hosts`: the DNS entries first, then the ranges. */
  function Validate(ipPoolList: string, ipPoolMask: string, ipPoolGateway: string,
                    numberOfHosts: int, ipPoolDns: string): Outcome
  {
    var dns := Split(ipPoolDns, ',');
    var d := FirstInvalidDns(dns);
    if d < |dns| then Error(InvalidDns(dns[d]))
    else CheckRanges(Split(ipPoolList, ','), ipPoolMask, ipPoolGateway, numberOfHosts, dns)
  }

  /** The range loop, once the DNS entries have passed. */
  function CheckRanges(texts: seq<string>, ipPoolMask: string, ipPoolGateway: string,
                       numberOfHosts: int, dns: seq<string>): Outcome
  {
    var k := FirstUnreadRange(texts);
    if k < |texts| then
      if ReadRange(texts[k]).NoEndField? then Crash(texts[k]) else Error(InvalidRange(texts[k]))
    else CheckCountMaskGateway(ReadRanges(texts), ipPoolMask, ipPoolGateway, numberOfHosts, dns)
  }

  /** The count, mask and gateway checks, once every range has been read. */
  function CheckCountMaskGateway(ranges: seq<AddressRange>, ipPoolMask: string, ipPoolGateway: string,
                                 numberOfHosts: int, dns: seq<string>): Outcome
  {
    var count := HostCount(ranges);
    if count < AddressesPerHost * numberOfHosts then Error(TooFewAddresses(count, numberOfHosts))
    else if !IpMask.MaskValid(ipPoolMask) then Error(InvalidMask(ipPoolMask))
    else
      match IPv4.ParseIPv4(ipPoolGateway)
      case None => Error(InvalidGateway(ipPoolGateway))
      case Some(g) => Ok(Pool(ipPoolMask[1..], g, dns, ranges))
  }

  /** The message of the `(-1, message)` pair returned on a rejection. */
  function ErrorMessage(e: PoolError): string {
    match e
    case InvalidDns(r) => "Invalid DNS address in ip_pool_dns " + r
    case InvalidRange(r) => "invalid IP range in ip_pool_list " + r
    case TooFewAddresses(c, h) =>
      "count of ip addresses (" + IntToDec(c) + ") < (number_of_hosts (" + IntToDec(h) + ") * 2)"
    case InvalidMask(m) => "Invalid ip_pool_mask " + m
    case InvalidGateway(g) => "Invalid ip_pool_gateway " + g
  }

  // ---------------------------------------------------------------------
  // Reading one range
  // ---------------------------------------------------------------------

  /** A range reads exactly when it has at least two '-' fields and the first
      two are valid addresses; its endpoints are those fields, unchanged, and
      their values. */
  lemma ReadRangeIff(text: string)
    ensures var fields := Split(text, '-');
      ReadRange(text).Read? <==>
        |fields| >= 2 && IPv4.IpValid(fields[0]) && IPv4.IpValid(fields[1])
    ensures var fields := Split(text, '-');
      ReadRange(text).Read? ==>
        var r := ReadRange(text).range;
        && r.startText == fields[0] && r.endText == fields[1]
        && IPv4.ParseIPv4(fields[0]) == Some(r.start)
        && IPv4.ParseIPv4(fields[1]) == Some(r.end)
  {
  }

  /** The script dies on a range exactly when the range has no '-' and is
      itself a valid address: an invalid text without '-' is rejected before
      the missing field is indexed. */
  lemma NoEndFieldIff(text: string)
    ensures ReadRange(text).NoEndField? <==> '-' !in text && IPv4.IpValid(text)
  {
    if '-' !in text {
      SplitNoSeparator(text, '-');
    } else {
      SplitLength(text, '-');
      CountPositive(text, '-');
    }
  }

  lemma {:induction false} CountPositive(s: string, c: char)
    requires c in s
    ensures Count(s, c) >= 1
    decreases |s|
  {
    if s[0] != c {
      assert c in s[1..];
      CountPositive(s[1..], c);
    }
  }

  /** Only the first two '-' fields of a range are read: anything after a
      second '-' is ignored. */
  lemma ReadRangeIgnoresExtraFields(a: string, b: string, rest: string)
    requires '-' !in a && '-' !in b
    ensures ReadRange(a + "-" + b + "-" + rest) == ReadRange(a + "-" + b)
  {
    SplitNoSeparator(b, '-');
    SplitCons(a, '-', b);
    assert a + "-" + b + "-" + rest == a + ['-'] + (b + ['-'] + rest);
    SplitCons(a, '-', b + ['-'] + rest);
    SplitCons(b, '-', rest);
    assert a + "-" + b == a + ['-'] + b;
  }

  // ---------------------------------------------------------------------
  // Host count
  // ---------------------------------------------------------------------

  /** The count of a concatenation of range lists is the sum of their counts. */
  lemma {:induction false} HostCountAppend(a: seq<AddressRange>, b: seq<AddressRange>)
    ensures HostCount(a + b) == HostCount(a) + HostCount(b)
    decreases |b|
  {
    if |b| > 0 {
      var b' := b[..|b| - 1];
      assert (a + b)[..|a + b| - 1] == a + b';
      assert (a + b)[|a + b| - 1] == b[|b| - 1];
      HostCountAppend(a, b');
    } else {
      assert a + b == a;
    }
  }

  /** A range whose end is below its start adds nothing to the count, and
      one whose end lies more than one below its start lowers it; a range
      whose end equals its start adds one. */
  lemma RangeSizeSign(r: AddressRange)
    ensures r.end < r.start ==> RangeSize(r) <= 0
    ensures r.end < r.start - 1 ==> RangeSize(r) < 0
    ensures r.end == r.start ==> RangeSize(r) == 1
    ensures r.end >= r.start ==> RangeSize(r) == r.end - r.start + 1 >= 1
  {
  }

  // ---------------------------------------------------------------------
  // The order of the checks
  // ---------------------------------------------------------------------

  /** An invalid DNS entry is reported first, whatever the other arguments:
      the first invalid entry is the one named. */
  lemma DnsCheckedFirst(ipPoolList: string, ipPoolMask: string, ipPoolGateway: string,
                        numberOfHosts: int, ipPoolDns: string, k: nat)
    requires var dns := Split(ipPoolDns, ',');
      k < |dns| && !IPv4.IpValid(dns[k]) && forall j :: 0 <= j < k ==> IPv4.IpValid(dns[j])
    ensures Validate(ipPoolList, ipPoolMask, ipPoolGateway, numberOfHosts, ipPoolDns)
         == Error(InvalidDns(Split(ipPoolDns, ',')[k]))
  {
    FirstInvalidDnsAt(Split(ipPoolDns, ','), k);
  }

  /** With all DNS entries valid, the first range that does not read decides
      the outcome, before the count, the mask and the gateway are looked at:
      a crash when it is a lone valid address, a rejection otherwise. */
  lemma RangesCheckedSecond(ipPoolList: string, ipPoolMask: string, ipPoolGateway: string,
                            numberOfHosts: int, ipPoolDns: string, k: nat)
    requires forall j :: 0 <= j < |Split(ipPoolDns, ',')| ==> IPv4.IpValid(Split(ipPoolDns, ',')[j])
    requires var texts := Split(ipPoolList, ',');
      k < |texts| && !ReadRange(texts[k]).Read? && forall j :: 0 <= j < k ==> ReadRange(texts[j]).Read?
    ensures var t := Split(ipPoolList, ',')[k];
      Validate(ipPoolList, ipPoolMask, ipPoolGateway, numberOfHosts, ipPoolDns)
        == if '-' !in t && IPv4.IpValid(t) then Crash(t) else Error(InvalidRange(t))
  {
    var dns := Split(ipPoolDns, ',');
    var texts := Split(ipPoolList, ',');
    FirstInvalidDnsAt(dns, |dns|);
    FirstUnreadRangeAt(texts, k);
    NoEndFieldIff(texts[k]);
  }

  /** With all DNS entries and ranges read, the count is compared with twice
      the number of hosts before the mask and the gateway are checked: the
      pool is rejected for its count exactly when the count is strictly
      below the threshold, so a count equal to `2 * number_of_hosts` passes. */
  lemma CountCheckedThird(ipPoolList: string, ipPoolMask: string, ipPoolGateway: string,
                          numberOfHosts: int, ipPoolDns: string)
    requires forall j :: 0 <= j < |Split(ipPoolDns, ',')| ==> IPv4.IpValid(Split(ipPoolDns, ',')[j])
    requires forall j :: 0 <= j < |Split(ipPoolList, ',')| ==> ReadRange(Split(ipPoolList, ',')[j]).Read?
    ensures var count := HostCount(ReadRanges(Split(ipPoolList, ',')));
      var o := Validate(ipPoolList, ipPoolMask, ipPoolGateway, numberOfHosts, ipPoolDns);
      && (count < 2 * numberOfHosts <==> o.Error? && o.error.TooFewAddresses?)
      && (count < 2 * numberOfHosts ==> o == Error(TooFewAddresses(count, numberOfHosts)))
  {
    ValidateAfterRanges(ipPoolList, ipPoolMask, ipPoolGateway, numberOfHosts, ipPoolDns);
    CountCheck(ReadRanges(Split(ipPoolList, ',')), ipPoolMask, ipPoolGateway, numberOfHosts, Split(ipPoolDns, ','));
  }

  lemma CountCheck(ranges: seq<AddressRange>, ipPoolMask: string, ipPoolGateway: string,
                   numberOfHosts: int, dns: seq<string>)
    ensures var o := CheckCountMaskGateway(ranges, ipPoolMask, ipPoolGateway, numberOfHosts, dns);
      && (HostCount(ranges) < 2 * numberOfHosts <==> o.Error? && o.error.TooFewAddresses?)
      && (HostCount(ranges) < 2 * numberOfHosts ==> o == Error(TooFewAddresses(HostCount(ranges), numberOfHosts)))
  {
    var g := IPv4.ParseIPv4(ipPoolGateway);
    if g.Some? {
      assert HostCount(ranges) >= 2 * numberOfHosts && IpMask.MaskValid(ipPoolMask) ==>
        CheckCountMaskGateway(ranges, ipPoolMask, ipPoolGateway, numberOfHosts, dns).Ok?;
    }
  }

  /** Once the DNS entries and the ranges pass, only the count, the mask and
      the gateway remain to decide. */
  lemma ValidateAfterRanges(ipPoolList: string, ipPoolMask: string, ipPoolGateway: string,
                            numberOfHosts: int, ipPoolDns: string)
    requires forall j :: 0 <= j < |Split(ipPoolDns, ',')| ==> IPv4.IpValid(Split(ipPoolDns, ',')[j])
    requires forall j :: 0 <= j < |Split(ipPoolList, ',')| ==> ReadRange(Split(ipPoolList, ',')[j]).Read?
    ensures Validate(ipPoolList, ipPoolMask, ipPoolGateway, numberOfHosts, ipPoolDns)
         == CheckCountMaskGateway(ReadRanges(Split(ipPoolList, ',')), ipPoolMask, ipPoolGateway,
                                  numberOfHosts, Split(ipPoolDns, ','))
  {
    var dns := Split(ipPoolDns, ',');
    var texts := Split(ipPoolList, ',');
    FirstInvalidDnsAt(dns, |dns|);
    FirstUnreadRangeAt(texts, |texts|);
  }

  /** The mask is checked before the gateway: once the DNS entries, the
      ranges and the count pass, an invalid mask is reported even when the
      gateway is invalid too, and the gateway decides otherwise. */
  lemma MaskCheckedBeforeGateway(ipPoolList: string, ipPoolMask: string, ipPoolGateway: string,
                                 numberOfHosts: int, ipPoolDns: string)
    requires forall j :: 0 <= j < |Split(ipPoolDns, ',')| ==> IPv4.IpValid(Split(ipPoolDns, ',')[j])
    requires forall j :: 0 <= j < |Split(ipPoolList, ',')| ==> ReadRange(Split(ipPoolList, ',')[j]).Read?
    requires HostCount(ReadRanges(Split(ipPoolList, ','))) >= 2 * numberOfHosts
    ensures var o := Validate(ipPoolList, ipPoolMask, ipPoolGateway, numberOfHosts, ipPoolDns);
      && (!IpMask.MaskValid(ipPoolMask) ==> o == Error(InvalidMask(ipPoolMask)))
      && (IpMask.MaskValid(ipPoolMask) && !IPv4.IpValid(ipPoolGateway) ==> o == Error(InvalidGateway(ipPoolGateway)))
      && (IpMask.MaskValid(ipPoolMask) && IPv4.IpValid(ipPoolGateway) ==> o.Ok?)
  {
    ValidateAfterRanges(ipPoolList, ipPoolMask, ipPoolGateway, numberOfHosts, ipPoolDns);
  }

  /** A pool is accepted exactly when every check passes. */
  lemma ValidateOkIff(ipPoolList: string, ipPoolMask: string, ipPoolGateway: string,
                      numberOfHosts: int, ipPoolDns: string)
    ensures var dns := Split(ipPoolDns, ',');
      var texts := Split(ipPoolList, ',');
      Validate(ipPoolList, ipPoolMask, ipPoolGateway, numberOfHosts, ipPoolDns).Ok? <==>
        && (forall j :: 0 <= j < |dns| ==> IPv4.IpValid(dns[j]))
        && (forall j :: 0 <= j < |texts| ==> ReadRange(texts[j]).Read?)
        && HostCount(ReadRanges(texts)) >= 2 * numberOfHosts
        && IpMask.MaskValid(ipPoolMask)
        && IPv4.IpValid(ipPoolGateway)
  {
    var dns := Split(ipPoolDns, ',');
    var texts := Split(ipPoolList, ',');
    if forall j :: 0 <= j < |dns| ==> IPv4.IpValid(dns[j]) {
      FirstInvalidDnsAt(dns, |dns|);
      if forall j :: 0 <= j < |texts| ==> ReadRange(texts[j]).Read? {
        ValidateAfterRanges(ipPoolList, ipPoolMask, ipPoolGateway, numberOfHosts, ipPoolDns);
        CountMaskGatewayOk(ReadRanges(texts), ipPoolMask, ipPoolGateway, numberOfHosts, dns);
      } else {
        assert FirstUnreadRange(texts) < |texts|;
      }
    } else {
      assert FirstInvalidDns(dns) < |dns|;
    }
  }

  lemma CountMaskGatewayOk(ranges: seq<AddressRange>, ipPoolMask: string, ipPoolGateway: string,
                           numberOfHosts: int, dns: seq<string>)
    ensures CheckCountMaskGateway(ranges, ipPoolMask, ipPoolGateway, numberOfHosts, dns).Ok? <==>
      HostCount(ranges) >= 2 * numberOfHosts && IpMask.MaskValid(ipPoolMask) && IPv4.IpValid(ipPoolGateway)
  {
  }

  /** What an accepted pool holds: the mask without its '/', the gateway
      whose printed form is the gateway text itself, and every DNS entry in
      input order; the count of its ranges reaches twice the number of hosts. */
  lemma ValidateOkPool(ipPoolList: string, ipPoolMask: string, ipPoolGateway: string,
                       numberOfHosts: int, ipPoolDns: string)
    requires Validate(ipPoolList, ipPoolMask, ipPoolGateway, numberOfHosts, ipPoolDns).Ok?
    ensures var p := Validate(ipPoolList, ipPoolMask, ipPoolGateway, numberOfHosts, ipPoolDns).pool;
      && ipPoolMask == "/" + p.prefix && 1 <= |p.prefix| <= 2 && IsDigit(p.prefix[0])
      && p.gateway < IPv4.TwoTo32 && IPv4.FormatIPv4(p.gateway) == ipPoolGateway
      && p.dns == Split(ipPoolDns, ',') && Join(p.dns, ',') == ipPoolDns
      && (forall j :: 0 <= j < |p.dns| ==> IPv4.IpValid(p.dns[j]))
      && HostCount(p.ranges) >= 2 * numberOfHosts
  {
    ValidateOkIff(ipPoolList, ipPoolMask, ipPoolGateway, numberOfHosts, ipPoolDns);
    ValidateAfterRanges(ipPoolList, ipPoolMask, ipPoolGateway, numberOfHosts, ipPoolDns);
    IpMask.MaskPrefix(ipPoolMask);
    IPv4.FormatParseIPv4(ipPoolGateway);
    JoinSplit(ipPoolDns, ',');
  }

  /** The ranges of an accepted pool: one per comma-separated range text, in
      order, whose endpoint texts are that text's first two '-' fields,
      unchanged, and whose values are those fields read as addresses. */
  lemma ValidateOkRanges(ipPoolList: string, ipPoolMask: string, ipPoolGateway: string,
                         numberOfHosts: int, ipPoolDns: string)
    requires Validate(ipPoolList, ipPoolMask, ipPoolGateway, numberOfHosts, ipPoolDns).Ok?
    ensures var p := Validate(ipPoolList, ipPoolMask, ipPoolGateway, numberOfHosts, ipPoolDns).pool;
      var texts := Split(ipPoolList, ',');
      && |p.ranges| == |texts|
      && (forall j :: 0 <= j < |texts| ==>
            && |Split(texts[j], '-')| >= 2
            && p.ranges[j].startText == Split(texts[j], '-')[0]
            && p.ranges[j].endText == Split(texts[j], '-')[1]
            && IPv4.ParseIPv4(p.ranges[j].startText) == Some(p.ranges[j].start)
            && IPv4.ParseIPv4(p.ranges[j].endText) == Some(p.ranges[j].end))
  {
    ValidateOkIff(ipPoolList, ipPoolMask, ipPoolGateway, numberOfHosts, ipPoolDns);
    ValidateAfterRanges(ipPoolList, ipPoolMask, ipPoolGateway, numberOfHosts, ipPoolDns);
    var texts := Split(ipPoolList, ',');
    var rs := ReadRanges(texts);
    assert Validate(ipPoolList, ipPoolMask, ipPoolGateway, numberOfHosts, ipPoolDns).pool.ranges == rs;
    forall j | 0 <= j < |texts|
      ensures |Split(texts[j], '-')| >= 2
      ensures rs[j].startText == Split(texts[j], '-')[0] && rs[j].endText == Split(texts[j], '-')[1]
      ensures IPv4.ParseIPv4(rs[j].startText) == Some(rs[j].start)
      ensures IPv4.ParseIPv4(rs[j].endText) == Some(rs[j].end)
    {
      ReadRangeIff(texts[j]);
    }
  }

  // ---------------------------------------------------------------------
  // Pools of one range
  // ---------------------------------------------------------------------

  /** A range list of one `a-b` range reads as the range from `a` to `b`. */
  lemma OneRange(list: string, a: string, b: string, start: nat, end: nat)
    requires '-' !in a && '-' !in b && ',' !in list
    requires list == a + ['-'] + b
    requires IPv4.ParseIPv4(a) == Some(start) && IPv4.ParseIPv4(b) == Some(end)
    ensures Split(list, ',') == [list]
    ensures ReadRange(list) == Read(AddressRange(a, b, start, end))
  {
    SplitNoSeparator(list, ',');
    SplitTwo(a, '-', b, list);
  }

  /** A pool of one range and one DNS server is accepted, unchanged, when
      each check passes on its own. */
  lemma SingleRangeAccepted(list: string, mask: string, gateway: string, hosts: int, dns: string,
                            r: AddressRange, g: nat)
    requires Split(dns, ',') == [dns] && IPv4.IpValid(dns)
    requires Split(list, ',') == [list] && ReadRange(list) == Read(r)
    requires RangeSize(r) >= 2 * hosts
    requires IpMask.MaskValid(mask)
    requires IPv4.ParseIPv4(gateway) == Some(g)
    ensures Validate(list, mask, gateway, hosts, dns) == Ok(Pool(mask[1..], g, [dns], [r]))
  {
    ValidateAfterRanges(list, mask, gateway, hosts, dns);
    assert ReadRanges([list]) == [r];
    assert HostCount([r]) == RangeSize(r);
  }

  /** A pool of one range and one valid DNS server whose range holds fewer
      than two addresses per host is rejected for its count. */
  lemma SingleRangeTooFew(list: string, mask: string, gateway: string, hosts: int, dns: string,
                          r: AddressRange)
    requires Split(dns, ',') == [dns] && IPv4.IpValid(dns)
    requires Split(list, ',') == [list] && ReadRange(list) == Read(r)
    requires RangeSize(r) < 2 * hosts
    ensures Validate(list, mask, gateway, hosts, dns) == Error(TooFewAddresses(RangeSize(r), hosts))
  {
    assert ReadRanges([list]) == [r];
    assert HostCount([r]) == RangeSize(r);
    CountCheckedThird(list, mask, gateway, hosts, dns);
  }

  /** A range list that is one valid address, after one valid DNS server,
      makes the script index a missing field. */
  lemma SingleAddressCrashes(list: string, mask: string, gateway: string, hosts: int, dns: string)
    requires Split(dns, ',') == [dns] && IPv4.IpValid(dns)
    requires ',' !in list && '-' !in list && IPv4.IpValid(list)
    ensures Validate(list, mask, gateway, hosts, dns) == Crash(list)
  {
    SplitNoSeparator(list, ',');
    NoEndFieldIff(list);
    RangesCheckedSecond(list, mask, gateway, hosts, dns, 0);
  }

  /** Of two DNS entries, a valid one then an invalid one, the second is
      named in the rejection. */
  lemma SecondDnsRejected(list: string, mask: string, gateway: string, hosts: int, dns: string,
                          first: string, second: string)
    requires ',' !in first && ',' !in second && dns == first + [','] + second
    requires IPv4.IpValid(first) && !IPv4.IpValid(second)
    ensures Validate(list, mask, gateway, hosts, dns) == Error(InvalidDns(second))
  {
    SplitTwo(first, ',', second, dns);
    DnsCheckedFirst(list, mask, gateway, hosts, dns, 1);
  }

  /** The rejection message names the kind of check that failed and, for
      every kind but the count, the offending text: equal messages come from
      the same check and the same input. */
  lemma ErrorMessageDeterminesError(e1: PoolError, e2: PoolError)
    requires ErrorMessage(e1) == ErrorMessage(e2)
    ensures e1.InvalidDns? == e2.InvalidDns?
    ensures e1.InvalidRange? == e2.InvalidRange?
    ensures e1.TooFewAddresses? == e2.TooFewAddresses?
    ensures e1.InvalidMask? == e2.InvalidMask?
    ensures e1.InvalidGateway? == e2.InvalidGateway?
    ensures !e1.TooFewAddresses? ==> e1 == e2
  {
    var m := ErrorMessage(e1);
    assert MessageSignature(e1) == (m[0], m[8], m[16]);
    assert MessageSignature(e2) == (m[0], m[8], m[16]);
    match e1
    case InvalidDns(r) =>
      assert r == m[|"Invalid DNS address in ip_pool_dns "|..];
    case InvalidRange(r) =>
      assert r == m[|"invalid IP range in ip_pool_list "|..];
    case InvalidMask(r) =>
      assert r == m[|"Invalid ip_pool_mask "|..];
    case InvalidGateway(r) =>
      assert r == m[|"Invalid ip_pool_gateway "|..];
    case TooFewAddresses(_, _) =>
  }

  /** Characters 0, 8 and 16 of each kind of message, which tell the kinds apart. */
  function MessageSignature(e: PoolError): (sig: (char, char, char))
    ensures |ErrorMessage(e)| > 16
    ensures sig == (ErrorMessage(e)[0], ErrorMessage(e)[8], ErrorMessage(e)[16])
  {
    match e
    case InvalidDns(_) => ('I', 'D', 'e')
    case InvalidRange(_) => ('i', 'I', ' ')
    case TooFewAddresses(_, _) => ('c', ' ', 'e')
    case InvalidMask(_) => ('I', 'i', 'm')
    case InvalidGateway(_) => ('I', 'i', 'g')
  }

}
