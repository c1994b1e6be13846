/** Worked inputs: what `ip_valid` and the 32-bit conversion make of a few
    concrete address texts, the text of one rejection message, and a pool
    that the checks accept. */
module PoolExamples {
  import opened Options
  import opened Text
  import IPv4
  import IpMask
  import opened IpPool

  /** `s` is the numeral `str(n)`, so it reads as `n`. */
  lemma Numeral(n: nat, s: string)
    requires NatToDec(n) == s
    ensures AllDigits(s) && DecToNat(s) == n
  {
    DecToNatOfNatToDec(n);
  }

  /** A valid address reads as its big-endian 32-bit value. */
  lemma AddressValue()
    ensures IPv4.ParseIPv4("192.168.0.1") == Some(0xC0A8_0001)
  {
    Quad(192, 168, 0, 1, "192.168.0.1");
  }

  /** A leading zero is refused, as by the standard library since Python
      3.9.5. */
  lemma LeadingZeroRefused()
    ensures !IPv4.IpValid("192.168.01.1")
  {
    assert "192.168.01.1" == Join(["192", "168", "01", "1"], '.');
    SplitJoin(["192", "168", "01", "1"], '.');
    assert IPv4.ParseOctet("01").None?;
  }

  /** An octet above 255 is refused. */
  lemma LargeOctetRefused()
    ensures !IPv4.IpValid("256.0.0.1")
  {
    assert "256.0.0.1" == Join(["256", "0", "0", "1"], '.');
    SplitJoin(["256", "0", "0", "1"], '.');
    Numeral(256, "256");
    assert IPv4.ParseOctet("256").None?;
  }

  /** Three fields are refused, and so are an address with a prefix suffix
      and the empty string. */
  lemma MalformedRefused()
    ensures !IPv4.IpValid("10.0.0")
    ensures !IPv4.IpValid("10.0.0.1/24")
    ensures !IPv4.IpValid("")
  {
    assert "10.0.0" == Join(["10", "0", "0"], '.');
    SplitJoin(["10", "0", "0"], '.');
    assert '/' in "10.0.0.1/24";
  }

  /** The dotted quad of four bytes reads as their big-endian value. */
  lemma Quad(a: nat, b: nat, c: nat, d: nat, s: string)
    requires a < 256 && b < 256 && c < 256 && d < 256
    requires s == NatToDec(a) + "." + NatToDec(b) + "." + NatToDec(c) + "." + NatToDec(d)
    ensures IPv4.ParseIPv4(s) == Some(IPv4.ToU32(a, b, c, d))
  {
    IPv4.FormatOctet(a);
    IPv4.FormatOctet(b);
    IPv4.FormatOctet(c);
    IPv4.FormatOctet(d);
    IPv4.ParseDottedQuad(NatToDec(a), NatToDec(b), NatToDec(c), NatToDec(d));
  }

  /** The count message for three addresses and two hosts. */
  lemma CountMessageExample()
    ensures ErrorMessage(TooFewAddresses(3, 2)) == "count of ip addresses (3) < (number_of_hosts (2) * 2)"
  {
  }

  /** A pool of the usual shape is accepted: one range `a-b`, the mask "/24",
      a gateway, two hosts and one DNS server, with at least four addresses
      in the range. With "192.168.0.1-192.168.0.10" the count is 10. */
  lemma AcceptedPoolExample(a: string, b: string, g: string, d: string, sa: nat, eb: nat, gv: nat)
    requires IPv4.ParseIPv4(a) == Some(sa) && IPv4.ParseIPv4(b) == Some(eb)
    requires IPv4.ParseIPv4(g) == Some(gv) && IPv4.IpValid(d)
    requires eb - sa + 1 >= 4
    ensures Validate(a + "-" + b, "/24", g, 2, d)
         == Ok(Pool("24", gv, [d], [AddressRange(a, b, sa, eb)]))
    ensures HostCount([AddressRange(a, b, sa, eb)]) == eb - sa + 1
  {
    IPv4.IpValidChars(a);
    IPv4.IpValidChars(b);
    IPv4.IpValidChars(d);
    assert '-' !in a && '-' !in b && ',' !in a && ',' !in b && ',' !in d;
    var list := a + "-" + b;
    assert ',' !in list;
    SplitNoSeparator(d, ',');
    OneRange(list, a, b, sa, eb);
    IpMask.MaskValidIff("/24");
    SingleRangeAccepted(list, "/24", g, 2, d, AddressRange(a, b, sa, eb), gv);
  }
}
