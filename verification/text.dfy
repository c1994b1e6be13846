/** Character and string operations the provisioning script borrows from
    Python: ASCII digits, `str(n)` and `int(s, 10)` on non-negative integers,
    `str.split` and `str.join` with a one-character separator, and
    `str.upper` restricted to ASCII letters. */
module Text {

  predicate IsDigit(c: char) {
    '0' <= c <= '9'
  }

  predicate AllDigits(s: string) {
    forall i :: 0 <= i < |s| ==> IsDigit(s[i])
  }

  function DigitValue(c: char): (d: nat)
    requires IsDigit(c)
    ensures d < 10
  {
    c as int - '0' as int
  }

  function DigitChar(d: nat): (c: char)
    requires d < 10
    ensures IsDigit(c) && DigitValue(c) == d
  {
    ('0' as int + d) as char
  }

  /** A decimal numeral as `str` prints a non-negative int: at least one
      digit, and no leading zero unless the numeral is "0" itself. */
  predicate IsCanonicalDec(s: string) {
    1 <= |s| && AllDigits(s) && (s[0] == '0' ==> |s| == 1)
  }

  /** `str(n)` for a non-negative int. */
  function NatToDec(n: nat): (s: string)
    ensures IsCanonicalDec(s)
    ensures s[0] == '0' <==> n == 0
    decreases n
  {
    if n < 10 then [DigitChar(n)] else NatToDec(n / 10) + [DigitChar(n % 10)]
  }

  /** `int(s, 10)` on a string of ASCII digits (the empty string reads as 0). */
  function DecToNat(s: string): nat
    requires AllDigits(s)
  {
    if |s| == 0 then 0 else DecToNat(s[..|s| - 1]) * 10 + DigitValue(s[|s| - 1])
  }

  /** `str(i)` for any int: a minus sign before the magnitude when negative. */
  function IntToDec(i: int): string {
    if i < 0 then "-" + NatToDec(-i) else NatToDec(i)
  }

  /** `str(i)` of any int reads back as `i`: it starts with '-' exactly when
      `i` is negative, and the rest is the numeral of the magnitude. */
  lemma IntToDecReadsBack(i: int)
    ensures 1 <= |IntToDec(i)|
    ensures IntToDec(i)[0] == '-' <==> i < 0
    ensures i >= 0 ==> AllDigits(IntToDec(i)) && DecToNat(IntToDec(i)) == i
    ensures i < 0 ==> AllDigits(IntToDec(i)[1..]) && DecToNat(IntToDec(i)[1..]) == -i
  {
    if i < 0 {
      DecToNatOfNatToDec(-i);
      assert IntToDec(i)[1..] == NatToDec(-i);
    } else {
      DecToNatOfNatToDec(i);
      assert IsDigit(IntToDec(i)[0]);
    }
  }

  /** Reading back a printed number gives the number. */
  lemma {:induction false} DecToNatOfNatToDec(n: nat)
    ensures DecToNat(NatToDec(n)) == n
  {
    if n >= 10 {
      var s := NatToDec(n);
      assert s[..|s| - 1] == NatToDec(n / 10);
      DecToNatOfNatToDec(n / 10);
    }
  }

  /** A numeral whose value is zero is written with a leading '0'. */
  lemma {:induction false} DecToNatZero(s: string)
    requires 1 <= |s| && AllDigits(s)
    requires DecToNat(s) == 0
    ensures s[0] == '0'
  {
    if |s| > 1 {
      var p := s[..|s| - 1];
      assert AllDigits(p);
      DecToNatZero(p);
    }
  }

  /** Printing a canonical numeral's value gives the numeral back: together
      with DecToNatOfNatToDec, `str` and `int` are inverse bijections between
      naturals and canonical numerals. */
  lemma {:induction false} NatToDecOfDecToNat(s: string)
    requires IsCanonicalDec(s)
    ensures NatToDec(DecToNat(s)) == s
  {
    if |s| == 1 {
      assert DecToNat(s) == DigitValue(s[0]);
      assert DigitChar(DigitValue(s[0])) == s[0];
    } else {
      var p := s[..|s| - 1];
      var c := s[|s| - 1];
      assert AllDigits(p);
      assert IsCanonicalDec(p);
      if DecToNat(p) == 0 {
        DecToNatZero(p);
        assert false;
      }
      var n := DecToNat(s);
      assert n == DecToNat(p) * 10 + DigitValue(c);
      assert n / 10 == DecToNat(p) && n % 10 == DigitValue(c);
      NatToDecOfDecToNat(p);
      assert DigitChar(DigitValue(c)) == c;
      assert s == p + [c];
    }
  }

  /** The numeral of a number below 1000 has at most three digits. */
  lemma NatToDecBelowThousand(n: nat)
    requires n < 1000
    ensures |NatToDec(n)| <= 3
  {
    if n >= 10 {
      NatToDecBelowHundred(n / 10);
    }
  }

  lemma NatToDecBelowHundred(n: nat)
    requires n < 100
    ensures |NatToDec(n)| <= 2
  {
    if n >= 10 {
      assert |NatToDec(n / 10)| == 1;
    }
  }

  /** `s.split(sep)`: the fields between occurrences of `sep`, including empty
      ones; never an empty list. */
  function Split(s: string, sep: char): (parts: seq<string>)
    ensures 1 <= |parts|
    ensures forall i :: 0 <= i < |parts| ==> sep !in parts[i]
    decreases |s|
  {
    if |s| == 0 then [""]
    else
      var rest := Split(s[1..], sep);
      if s[0] == sep then [""] + rest
      else [[s[0]] + rest[0]] + rest[1..]
  }

  /** `sep.join(parts)`. */
  function Join(parts: seq<string>, sep: char): string {
    if |parts| == 0 then ""
    else if |parts| == 1 then parts[0]
    else parts[0] + [sep] + Join(parts[1..], sep)
  }

  /** Joining the fields of a split restores the string. */
  lemma {:induction false} JoinSplit(s: string, sep: char)
    ensures Join(Split(s, sep), sep) == s
    decreases |s|
  {
    if |s| > 0 {
      var rest := Split(s[1..], sep);
      JoinSplit(s[1..], sep);
      if s[0] != sep {
        if |rest| > 1 {
          assert Split(s, sep)[1..] == rest[1..];
          assert rest == [rest[0]] + rest[1..];
          assert Join(rest, sep) == rest[0] + [sep] + Join(rest[1..], sep);
        }
        assert s == [s[0]] + s[1..];
      } else {
        assert Split(s, sep)[1..] == rest;
        assert s == [s[0]] + s[1..];
      }
    }
  }

  /** Splitting a string with no separator gives that one field. */
  lemma {:induction false} SplitNoSeparator(a: string, sep: char)
    requires sep !in a
    ensures Split(a, sep) == [a]
    decreases |a|
  {
    if |a| > 0 {
      assert sep !in a[1..];
      SplitNoSeparator(a[1..], sep);
      assert a == [a[0]] + a[1..];
    }
  }

  /** A separator-free field followed by the separator splits off as the
      first field. */
  lemma {:induction false} SplitCons(a: string, sep: char, t: string)
    requires sep !in a
    ensures Split(a + [sep] + t, sep) == [a] + Split(t, sep)
    decreases |a|
  {
    var s := a + [sep] + t;
    if |a| == 0 {
      assert s[0] == sep && s[1..] == t;
    } else {
      assert s[0] == a[0] && s[1..] == a[1..] + [sep] + t;
      assert sep !in a[1..];
      SplitCons(a[1..], sep, t);
      assert a == [a[0]] + a[1..];
    }
  }

  /** `a + sep + b` splits into `a` and `b`. */
  lemma SplitTwo(a: string, sep: char, b: string, t: string)
    requires sep !in a && sep !in b
    requires t == a + [sep] + b
    ensures Split(t, sep) == [a, b]
  {
    SplitCons(a, sep, b);
    SplitNoSeparator(b, sep);
  }

  /** Splitting a join of separator-free fields gives the fields back. */
  lemma {:induction false} SplitJoin(parts: seq<string>, sep: char)
    requires 1 <= |parts|
    requires forall i :: 0 <= i < |parts| ==> sep !in parts[i]
    ensures Split(Join(parts, sep), sep) == parts
  {
    if |parts| == 1 {
      SplitNoSeparator(parts[0], sep);
    } else {
      SplitJoin(parts[1..], sep);
      SplitCons(parts[0], sep, Join(parts[1..], sep));
      assert parts == [parts[0]] + parts[1..];
    }
  }

  /** The number of occurrences of `c` in `s`. */
  function Count(s: string, c: char): nat {
    if |s| == 0 then 0 else (if s[0] == c then 1 else 0) + Count(s[1..], c)
  }

  /** A split has one more field than the string has separators. */
  lemma {:induction false} SplitLength(s: string, sep: char)
    ensures |Split(s, sep)| == Count(s, sep) + 1
    decreases |s|
  {
    if |s| > 0 {
      SplitLength(s[1..], sep);
    }
  }

  /** `c.upper()` for an ASCII letter; every other character is kept. */
  function UpperChar(c: char): char {
    if 'a' <= c <= 'z' then (c as int - 32) as char else c
  }

  /** `s.upper()` on ASCII text. */
  function Upper(s: string): string {
    seq(|s|, i requires 0 <= i < |s| => UpperChar(s[i]))
  }

  /** What `upper()` does to ASCII text: each lower-case letter becomes its
      capital, every other character is kept, no lower-case letter is left,
      and upper-casing again changes nothing. */
  lemma UpperCases(s: string)
    ensures |Upper(s)| == |s|
    ensures forall i :: 0 <= i < |s| && 'a' <= s[i] <= 'z' ==>
      'A' <= Upper(s)[i] <= 'Z' && Upper(s)[i] as int == s[i] as int - 32
    ensures forall i :: 0 <= i < |s| && !('a' <= s[i] <= 'z') ==> Upper(s)[i] == s[i]
    ensures forall i :: 0 <= i < |s| ==> !('a' <= Upper(s)[i] <= 'z')
    ensures Upper(Upper(s)) == Upper(s)
  {
    assert forall i :: 0 <= i < |s| ==> Upper(Upper(s))[i] == Upper(s)[i];
  }

  /** Upper-casing distributes over concatenation. */
  lemma UpperConcat(a: string, b: string)
    ensures Upper(a + b) == Upper(a) + Upper(b)
  {
    assert forall i :: 0 <= i < |a + b| ==> Upper(a + b)[i] == (Upper(a) + Upper(b))[i];
  }

}
