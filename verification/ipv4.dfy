/** Dotted-quad IPv4 addresses as the script reads them through Python's
    `ipaddress.IPv4Address`: `ip_valid` is "the constructor does not raise",
    and `int(IPv4Address(s))` is the 32-bit value the range sizes are computed
    from. The accepted language is the `IPv4address` rule of section 3.2.2 of
    RFC 3986. */
module IPv4 {
  import opened Options
  import opened Text

  const TwoTo8: nat := 0x100
  const TwoTo16: nat := 0x1_0000
  const TwoTo24: nat := 0x100_0000
  const TwoTo32: nat := 0x1_0000_0000

  /** The `dec-octet` rule of section 3.2.2 of RFC 3986:
        DIGIT / %x31-39 DIGIT / "1" 2DIGIT / "2" %x30-34 DIGIT / "25" %x30-35 */
  predicate IsDecOctet(s: string) {
    || (|s| == 1 && IsDigit(s[0]))
    || (|s| == 2 && '1' <= s[0] <= '9' && IsDigit(s[1]))
    || (|s| == 3 && s[0] == '1' && IsDigit(s[1]) && IsDigit(s[2]))
    || (|s| == 3 && s[0] == '2' && '0' <= s[1] <= '4' && IsDigit(s[2]))
    || (|s| == 3 && s[0] == '2' && s[1] == '5' && '0' <= s[2] <= '5')
  }

  /** The `IPv4address` rule: four dec-octets separated by dots. */
  predicate IsIPv4Text(s: string) {
    var fields := Split(s, '.');
    |fields| == 4 && forall i :: 0 <= i < 4 ==> IsDecOctet(fields[i])
  }

  /** One field of a dotted quad, rejected by the same checks, in the same
      order, as the standard library's octet parser: empty, a character that
      is not an ASCII digit, more than three characters, a leading zero, a
      value above 255. */
  function ParseOctet(s: string): (r: Option<nat>)
    ensures r.Some? ==> r.value < 256
  {
    if |s| == 0 then None
    else if !AllDigits(s) then None
    else if |s| > 3 then None
    else if s != "0" && s[0] == '0' then None
    else if DecToNat(s) > 255 then None
    else Some(DecToNat(s))
  }

  /** The integer `int.from_bytes([a, b, c, d], 'big')`, the value `int()`
      takes of an `IPv4Address`. */
  function ToU32(a: nat, b: nat, c: nat, d: nat): (v: nat)
    requires a < 256 && b < 256 && c < 256 && d < 256
    ensures v < TwoTo32
  {
    a * TwoTo24 + b * TwoTo16 + c * TwoTo8 + d
  }

  /** `IPv4Address(s)` for a string: a '/' is refused first, then the empty
      string, then anything that is not four dot-separated octets. */
  function ParseIPv4(s: string): (r: Option<nat>)
    ensures r.Some? ==> r.value < TwoTo32
  {
    if '/' in s then None
    else if |s| == 0 then None
    else
      var fields := Split(s, '.');
      if |fields| != 4 then None
      else
        match (ParseOctet(fields[0]), ParseOctet(fields[1]), ParseOctet(fields[2]), ParseOctet(fields[3]))
        case (Some(a), Some(b), Some(c), Some(d)) => Some(ToU32(a, b, c, d))
        case _ => None
  }

  /** `ip_valid(s)`. */
  predicate IpValid(s: string) {
    ParseIPv4(s).Some?
  }

  /** `str(IPv4Address(v))`: the four bytes of `v`, most significant first,
      in decimal, joined by dots. */
  function FormatIPv4(v: nat): string
    requires v < TwoTo32
  {
    NatToDec(v / TwoTo24) + "." + NatToDec(v / TwoTo16 % 256) + "."
      + NatToDec(v / TwoTo8 % 256) + "." + NatToDec(v % 256)
  }

  /** The four bytes of a 32-bit value are recovered from it. */
  lemma ToU32Bytes(a: nat, b: nat, c: nat, d: nat)
    requires a < 256 && b < 256 && c < 256 && d < 256
    ensures var v := ToU32(a, b, c, d);
      v / TwoTo24 == a && v / TwoTo16 % 256 == b && v / TwoTo8 % 256 == c && v % 256 == d
  {
    var v := ToU32(a, b, c, d);
    assert v == ((a * 256 + b) * 256 + c) * 256 + d;
    assert v / 256 == (a * 256 + b) * 256 + c;
    assert v / TwoTo16 == (v / 256) / 256;
    assert v / TwoTo16 == a * 256 + b;
    assert v / TwoTo24 == (v / TwoTo16) / 256;
  }

  /** Every 32-bit value is the value of its four bytes. */
  lemma U32FromBytes(v: nat)
    requires v < TwoTo32
    ensures v / TwoTo24 < 256 && v / TwoTo16 % 256 < 256 && v / TwoTo8 % 256 < 256
    ensures ToU32(v / TwoTo24, v / TwoTo16 % 256, v / TwoTo8 % 256, v % 256) == v
  {
    var q1 := v / 256;
    var q2 := q1 / 256;
    var q3 := q2 / 256;
    assert v == q1 * 256 + v % 256;
    assert q1 == q2 * 256 + q1 % 256;
    assert q2 == q3 * 256 + q2 % 256;
    assert v / TwoTo16 == q2;
    assert v / TwoTo24 == q3;
    assert v / TwoTo8 == q1;
  }

  /** The standard library's octet parser accepts exactly the RFC 3986
      dec-octets, with the value the numeral denotes. */
  lemma ParseOctetIsDecOctet(s: string)
    ensures ParseOctet(s).Some? <==> IsDecOctet(s)
    ensures ParseOctet(s).Some? ==> ParseOctet(s).value == DecToNat(s)
  {
    if 1 <= |s| <= 3 && AllDigits(s) {
      var d0 := DigitValue(s[0]);
      if |s| == 1 {
        assert DecToNat(s) == DecToNat(s[..0]) * 10 + d0;
      } else if |s| == 2 {
        var d1 := DigitValue(s[1]);
        assert s[..1][..0] == s[..0];
        assert DecToNat(s[..1]) == d0;
        assert DecToNat(s) == d0 * 10 + d1;
      } else {
        var d1 := DigitValue(s[1]);
        var d2 := DigitValue(s[2]);
        assert s[..2][..1] == s[..1];
        assert s[..1][..0] == s[..0];
        assert DecToNat(s[..1]) == d0;
        assert DecToNat(s[..2]) == d0 * 10 + d1;
        assert DecToNat(s) == d0 * 100 + d1 * 10 + d2;
      }
    }
  }

  /** `ip_valid` accepts exactly the RFC 3986 `IPv4address` strings. */
  lemma IpValidIsIPv4Text(s: string)
    ensures IpValid(s) <==> IsIPv4Text(s)
  {
    var fields := Split(s, '.');
    if |fields| == 4 {
      ParseOctetIsDecOctet(fields[0]);
      ParseOctetIsDecOctet(fields[1]);
      ParseOctetIsDecOctet(fields[2]);
      ParseOctetIsDecOctet(fields[3]);
      if '/' in s {
        JoinSplit(s, '.');
        var k :| 0 <= k < |s| && s[k] == '/';
        SlashInField(fields, k);
      }
    }
  }

  /** A character of `Join(fields, '.')` other than the dot lies in some field. */
  lemma {:induction false} SlashInField(fields: seq<string>, k: nat)
    requires k < |Join(fields, '.')| && Join(fields, '.')[k] != '.'
    ensures exists i, j :: 0 <= i < |fields| && 0 <= j < |fields[i]| && fields[i][j] == Join(fields, '.')[k]
  {
    if |fields| == 1 {
      assert fields[0][k] == Join(fields, '.')[k];
    } else if |fields| > 1 {
      var j := Join(fields, '.');
      if k < |fields[0]| {
        assert fields[0][k] == j[k];
      } else {
        assert k > |fields[0]|;
        assert j[k] == Join(fields[1..], '.')[k - |fields[0]| - 1];
        SlashInField(fields[1..], k - |fields[0]| - 1);
        var i, jj :| 0 <= i < |fields[1..]| && 0 <= jj < |fields[1..][i]| && fields[1..][i][jj] == j[k];
        assert fields[i + 1][jj] == j[k];
      }
    }
  }

  /** Four dec-octets joined by dots are accepted, and `int()` of the address
      is `a * 2^24 + b * 2^16 + c * 2^8 + d` for the numerals' values. */
  lemma ParseDottedQuad(a: string, b: string, c: string, d: string)
    requires IsDecOctet(a) && IsDecOctet(b) && IsDecOctet(c) && IsDecOctet(d)
    ensures AllDigits(a) && AllDigits(b) && AllDigits(c) && AllDigits(d)
    ensures DecToNat(a) < 256 && DecToNat(b) < 256 && DecToNat(c) < 256 && DecToNat(d) < 256
    ensures ParseIPv4(a + "." + b + "." + c + "." + d)
         == Some(ToU32(DecToNat(a), DecToNat(b), DecToNat(c), DecToNat(d)))
  {
    ParseOctetIsDecOctet(a);
    ParseOctetIsDecOctet(b);
    ParseOctetIsDecOctet(c);
    ParseOctetIsDecOctet(d);
    var fields := [a, b, c, d];
    JoinFour(a, b, c, d);
    assert forall i :: 0 <= i < 4 ==> '.' !in fields[i];
    SplitJoin(fields, '.');
    assert '/' !in a && '/' !in b && '/' !in c && '/' !in d;
  }

  lemma JoinFour(a: string, b: string, c: string, d: string)
    ensures Join([a, b, c, d], '.') == a + "." + b + "." + c + "." + d
  {
    var fields := [a, b, c, d];
    assert Join(fields[3..], '.') == d;
    assert Join(fields[2..], '.') == c + "." + d;
    assert Join(fields[1..], '.') == b + "." + c + "." + d;
  }

  /** A printed byte is a dec-octet denoting that byte. */
  lemma FormatOctet(n: nat)
    requires n < 256
    ensures IsDecOctet(NatToDec(n)) && DecToNat(NatToDec(n)) == n
  {
    NatToDecBelowThousand(n);
    DecToNatOfNatToDec(n);
    ParseOctetIsDecOctet(NatToDec(n));
  }

  /** Printing an address and parsing it back gives the same value. */
  lemma ParseFormatIPv4(v: nat)
    requires v < TwoTo32
    ensures ParseIPv4(FormatIPv4(v)) == Some(v)
  {
    U32FromBytes(v);
    FormatOctet(v / TwoTo24);
    FormatOctet(v / TwoTo16 % 256);
    FormatOctet(v / TwoTo8 % 256);
    FormatOctet(v % 256);
    ParseDottedQuad(NatToDec(v / TwoTo24), NatToDec(v / TwoTo16 % 256),
                    NatToDec(v / TwoTo8 % 256), NatToDec(v % 256));
  }

  /** An accepted address prints back as exactly the text it was read from:
      since leading zeros are refused, every valid dotted quad is already in
      the form `str(IPv4Address(...))` produces. */
  lemma FormatParseIPv4(s: string)
    requires IpValid(s)
    ensures FormatIPv4(ParseIPv4(s).value) == s
  {
    var f := Split(s, '.');
    assert |f| == 4;
    var a, b, c, d := ParseOctet(f[0]).value, ParseOctet(f[1]).value, ParseOctet(f[2]).value, ParseOctet(f[3]).value;
    ParseOctetIsDecOctet(f[0]);
    ParseOctetIsDecOctet(f[1]);
    ParseOctetIsDecOctet(f[2]);
    ParseOctetIsDecOctet(f[3]);
    NatToDecOfDecToNat(f[0]);
    NatToDecOfDecToNat(f[1]);
    NatToDecOfDecToNat(f[2]);
    NatToDecOfDecToNat(f[3]);
    ToU32Bytes(a, b, c, d);
    JoinSplit(s, '.');
    assert f == [f[0], f[1], f[2], f[3]];
    JoinFour(f[0], f[1], f[2], f[3]);
  }

  /** A printed address contains only digits and dots. */
  lemma FormatIPv4Chars(v: nat)
    requires v < TwoTo32
    ensures forall k :: 0 <= k < |FormatIPv4(v)| ==> IsDigit(FormatIPv4(v)[k]) || FormatIPv4(v)[k] == '.'
  {
  }

  /** So does every accepted address: in particular none contains the
      characters '<', '>' or '-'. */
  lemma IpValidChars(s: string)
    requires IpValid(s)
    ensures forall k :: 0 <= k < |s| ==> IsDigit(s[k]) || s[k] == '.'
  {
    FormatParseIPv4(s);
    FormatIPv4Chars(ParseIPv4(s).value);
  }

}
