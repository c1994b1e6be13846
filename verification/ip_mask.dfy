/** The CIDR-mask check of configure_nsx_manager.py: a compiled pattern
    `/\d{1,2}` applied with `re.match`, which anchors only at the start of the
    string, combined with a length limit of three characters. */
module IpMask {
  import opened Options
  import opened Text

  /** Length of the match `re.match("/\d{1,2}", m)` finds: a slash, then one
      digit, then greedily a second digit if there is one; None when the
      pattern does not match at the start of `m`. */
  function MatchSlashDigits(m: string): (r: Option<nat>)
    ensures r.Some? ==> (r.value == 2 || r.value == 3) && r.value <= |m|
    ensures r.Some? ==> m[0] == '/' && forall i :: 1 <= i < r.value ==> IsDigit(m[i])
    ensures r == Some(2) ==> |m| == 2 || !IsDigit(m[2])
    ensures r.None? ==> |m| < 2 || m[0] != '/' || !IsDigit(m[1])
  {
    if 2 <= |m| && m[0] == '/' && IsDigit(m[1]) then
      if 3 <= |m| && IsDigit(m[2]) then Some(3) else Some(2)
    else None
  }

  /** `ip_mask_valid(mask)` is truthy: the pattern matches at the start and
      the whole string has at most three characters. */
  predicate MaskValid(m: string) {
    MatchSlashDigits(m).Some? && |m| <= 3
  }

  /** What the check really accepts: two or three characters, a slash and a
      digit first; a third character, when present, may be anything. */
  lemma MaskValidIff(m: string)
    ensures MaskValid(m) <==> 2 <= |m| <= 3 && m[0] == '/' && IsDigit(m[1])
  {
  }

  /** The prefix length written into the pool is `mask[1:]`: one or two
      characters, the first a digit. */
  lemma MaskPrefix(m: string)
    requires MaskValid(m)
    ensures 1 <= |m[1..]| <= 2 && IsDigit(m[1..][0])
    ensures m == "/" + m[1..]
  {
  }

  /** A valid mask whose third character is a digit (or absent) is a
      one- or two-digit prefix; there is no 0..32 range check. */
  lemma MaskDigitsValue(m: string)
    requires MaskValid(m) && AllDigits(m[1..])
    ensures DecToNat(m[1..]) <= 99
  {
    var p := m[1..];
    if |p| == 2 {
      assert DecToNat(p) == DecToNat(p[..1]) * 10 + DigitValue(p[1]);
      assert DecToNat(p[..1]) == DigitValue(p[0]);
    } else {
      assert DecToNat(p) == DecToNat(p[..0]) * 10 + DigitValue(p[0]);
    }
  }

  /** Conversely every prefix from 0 to 99, written as `str` writes it, is
      accepted: the check does not limit a prefix to the 0..32 of IPv4. */
  lemma MaskAcceptsUpTo99(n: nat)
    requires n <= 99
    ensures MaskValid("/" + NatToDec(n))
  {
    NatToDecBelowHundred(n);
  }

  /** Accepted and rejected masks: "/24" and "/99" pass although 99 is no IPv4
      prefix length, and so does "/2x" because the match is not anchored at
      the end; "/240" is too long, "24" lacks the slash, "/" and "/a" lack the
      digit, and the dotted form "255.255.255.0" named in the script's help
      text is rejected. */
  lemma MaskExamples()
    ensures MaskValid("/24") && MaskValid("/99") && MaskValid("/2x") && MaskValid("/0")
    ensures !MaskValid("/240") && !MaskValid("24") && !MaskValid("/") && !MaskValid("/a")
    ensures !MaskValid("255.255.255.0") && !MaskValid("")
  {
    MaskValidIff("/24");
    MaskValidIff("/99");
    MaskValidIff("/2x");
    MaskValidIff("/0");
    MaskValidIff("/240");
    MaskValidIff("24");
    MaskValidIff("/");
    MaskValidIff("/a");
    MaskValidIff("255.255.255.0");
    MaskValidIff("");
  }

}
