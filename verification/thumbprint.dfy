/** The certificate thumbprint text of `get_sha1_thumbprint` and
    `get_sha256_thumbprint`: the hex digest of the peer certificate cut into
    two-character groups, joined with ':' and upper-cased, or "not found"
    when the TLS connection fails. The socket handshake and the hash itself
    are not modelled: the digest arrives as a parameter. */
module Thumbprint {
  import opened Options
  import opened Text

  const NotFound: string := "not found"

  /** The groups `h[i:i + 2] for i in range(0, len(h), 2)`: pairs in order,
      the last one a single character when `|h|` is odd. */
  function Pairs(h: string): (groups: seq<string>)
    ensures |groups| == (|h| + 1) / 2
    ensures forall i :: 0 <= i < |groups| ==> 1 <= |groups[i]| <= 2
    decreases |h|
  {
    if |h| == 0 then []
    else if |h| <= 2 then [h]
    else [h[..2]] + Pairs(h[2..])
  }

  /** `':'.join(pairs)` before upper-casing. */
  function Grouped(h: string): string {
    Join(Pairs(h), ':')
  }

  /** `':'.join(h[i:i + 2] for i in range(0, len(h), 2)).upper()`. */
  function FormatDigest(h: string): string {
    Upper(Grouped(h))
  }

  /** The thumbprint a lookup returns: the formatted digest of the peer
      certificate, or "not found" when the connection could not be made. */
  function Thumbprint(digest: Option<string>): (t: string)
    ensures digest.None? <==> t == NotFound
  {
    match digest
    case None => NotFound
    case Some(h) =>
      assert FormatDigest(h) != NotFound by {
        var g := Grouped(h);
        assert |FormatDigest(h)| == |g|;
        if |g| == |NotFound| {
          assert FormatDigest(h)[0] == UpperChar(g[0]) != 'n';
        }
      }
      FormatDigest(h)
  }

  /** `s` with every ':' deleted. */
  function RemoveColons(s: string): string {
    if |s| == 0 then "" else (if s[0] == ':' then "" else [s[0]]) + RemoveColons(s[1..])
  }

  lemma {:induction false} RemoveColonsConcat(a: string, b: string)
    ensures RemoveColons(a + b) == RemoveColons(a) + RemoveColons(b)
    decreases |a|
  {
    if |a| > 0 {
      assert (a + b)[0] == a[0];
      assert (a + b)[1..] == a[1..] + b;
      RemoveColonsConcat(a[1..], b);
      var x := if a[0] == ':' then "" else [a[0]];
      assert RemoveColons(a) == x + RemoveColons(a[1..]);
      assert RemoveColons(a + b) == x + RemoveColons(a[1..] + b);
    } else {
      assert a + b == b;
    }
  }

  lemma {:induction false} RemoveColonsNone(a: string)
    requires ':' !in a
    ensures RemoveColons(a) == a
    decreases |a|
  {
    if |a| > 0 {
      assert ':' !in a[1..];
      RemoveColonsNone(a[1..]);
      assert a == [a[0]] + a[1..];
    }
  }

  /** A digest longer than one pair is grouped as its first pair, a colon,
      and the grouping of the rest. */
  lemma GroupedCons(h: string)
    requires 2 < |h|
    ensures Grouped(h) == h[..2] + [':'] + Grouped(h[2..])
  {
    assert |Pairs(h[2..])| >= 1;
    assert Pairs(h) == [h[..2]] + Pairs(h[2..]);
  }

  lemma {:induction false} GroupedLength(h: string)
    requires |h| % 2 == 0 && 2 <= |h|
    ensures |Grouped(h)| == 3 * (|h| / 2) - 1
    decreases |h|
  {
    if |h| > 2 {
      GroupedLength(h[2..]);
      GroupedCons(h);
    }
  }

  /** Grouping an even-length colon-free digest puts a ':' exactly at the
      positions 2, 5, 8, ... */
  lemma {:induction false} GroupedColons(h: string)
    requires |h| % 2 == 0 && 2 <= |h|
    requires ':' !in h
    ensures forall i :: 0 <= i < |Grouped(h)| ==> (Grouped(h)[i] == ':' <==> i % 3 == 2)
    decreases |h|
  {
    GroupedLength(h);
    var g := Grouped(h);
    if |h| > 2 {
      var t := h[2..];
      assert ':' !in t;
      GroupedColons(t);
      GroupedCons(h);
      var gt := Grouped(t);
      forall i | 0 <= i < |g|
        ensures g[i] == ':' <==> i % 3 == 2
      {
        if i < 2 {
          assert g[i] == h[i];
          assert h[i] in h;
        } else if i > 2 {
          assert g[i] == gt[i - 3];
          assert (i - 3) % 3 == i % 3;
        }
      }
    } else {
      assert g == h;
      assert h[0] in h && h[1] in h;
    }
  }

  /** ... and the digest characters in order at the other positions. */
  lemma {:induction false} GroupedChars(h: string)
    requires |h| % 2 == 0 && 2 <= |h|
    ensures |Grouped(h)| == 3 * (|h| / 2) - 1
    ensures forall k :: 0 <= k < |h| / 2 ==> Grouped(h)[3 * k] == h[2 * k] && Grouped(h)[3 * k + 1] == h[2 * k + 1]
    decreases |h|
  {
    GroupedLength(h);
    var g := Grouped(h);
    if |h| > 2 {
      var t := h[2..];
      GroupedChars(t);
      GroupedCons(h);
      var gt := Grouped(t);
      forall k | 0 <= k < |h| / 2
        ensures g[3 * k] == h[2 * k] && g[3 * k + 1] == h[2 * k + 1]
      {
        if k > 0 {
          assert g[3 * k] == gt[3 * (k - 1)];
          assert g[3 * k + 1] == gt[3 * (k - 1) + 1];
        }
      }
    }
  }

  /** Deleting the colons of the grouped text gives the digest back. */
  lemma {:induction false} RemoveColonsGrouped(h: string)
    requires ':' !in h
    ensures RemoveColons(Grouped(h)) == h
    decreases |h|
  {
    if |h| > 2 {
      var t := h[2..];
      assert ':' !in t && ':' !in h[..2];
      RemoveColonsGrouped(t);
      GroupedCons(h);
      RemoveColonsConcat(h[..2] + [':'], Grouped(t));
      RemoveColonsConcat(h[..2], [':']);
      RemoveColonsNone(h[..2]);
      assert h == h[..2] + t;
    } else if |h| > 0 {
      assert Grouped(h) == h;
      RemoveColonsNone(h);
    }
  }

  lemma {:induction false} RemoveColonsUpper(s: string)
    ensures RemoveColons(Upper(s)) == Upper(RemoveColons(s))
    decreases |s|
  {
    if |s| > 0 {
      RemoveColonsUpper(s[1..]);
      assert Upper(s)[1..] == Upper(s[1..]);
      UpperConcat(if s[0] == ':' then "" else [s[0]], RemoveColons(s[1..]));
    }
  }

  /** The thumbprint of a colon-free digest with the colons deleted is the
      upper-cased digest. */
  lemma FormatDigestRemoveColons(h: string)
    requires ':' !in h
    ensures RemoveColons(FormatDigest(h)) == Upper(h)
  {
    RemoveColonsUpper(Grouped(h));
    RemoveColonsGrouped(h);
  }

  /** Shape of the thumbprint of an even-length digest: 3n - 1 characters for
      2n digest characters, ':' exactly at the indices that are 2 modulo 3,
      and the upper-cased digest characters in order elsewhere. */
  lemma FormatDigestShape(h: string)
    requires |h| % 2 == 0 && 2 <= |h|
    requires ':' !in h
    ensures |FormatDigest(h)| == 3 * (|h| / 2) - 1
    ensures forall i :: 0 <= i < |FormatDigest(h)| ==> (FormatDigest(h)[i] == ':' <==> i % 3 == 2)
    ensures forall k :: 0 <= k < |h| / 2 ==>
      FormatDigest(h)[3 * k] == UpperChar(h[2 * k]) && FormatDigest(h)[3 * k + 1] == UpperChar(h[2 * k + 1])
  {
    GroupedColons(h);
    GroupedChars(h);
    var g := Grouped(h);
    forall i | 0 <= i < |g|
      ensures FormatDigest(h)[i] == ':' <==> i % 3 == 2
    {
      assert FormatDigest(h)[i] == UpperChar(g[i]);
    }
  }

  /** For any non-empty input, odd lengths included, one ':' is inserted
      between consecutive groups. */
  lemma {:induction false} FormatDigestLength(h: string)
    requires 1 <= |h|
    ensures |FormatDigest(h)| == |h| + (|h| + 1) / 2 - 1
    decreases |h|
  {
    if |h| > 2 {
      FormatDigestLength(h[2..]);
      GroupedCons(h);
    }
  }

  /** A SHA-1 hex digest (40 characters) gives a 59-character thumbprint and
      a SHA-256 hex digest (64 characters) a 95-character one. */
  lemma DigestThumbprintLengths(sha1: string, sha256: string)
    requires |sha1| == 40 && |sha256| == 64
    ensures |Thumbprint(Some(sha1))| == 59
    ensures |Thumbprint(Some(sha256))| == 95
  {
    FormatDigestLength(sha1);
    FormatDigestLength(sha256);
  }

}
