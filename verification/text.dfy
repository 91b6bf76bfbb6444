/** Text helpers with Python semantics: decimal rendering of integers
    (`str(n)`, `f"{n:02d}"`), `str.split`, `str.join`, `str.strip`,
    substring containment and upper-casing. */
module Text {
  import opened Wrappers

  predicate IsDigit(c: char) {
    '0' <= c <= '9'
  }

  predicate AllDigits(s: string) {
    forall i :: 0 <= i < |s| ==> IsDigit(s[i])
  }

  function DigitChar(d: nat): (c: char)
    requires d < 10
    ensures IsDigit(c)
  {
    ('0' as int + d) as char
  }

  function DigitValue(c: char): (d: nat)
    requires IsDigit(c)
    ensures d < 10 && DigitChar(d) == c
  {
    c as int - '0' as int
  }

  function Pow10(k: nat): (p: nat)
    ensures p >= 1
  {
    if k == 0 then 1 else 10 * Pow10(k - 1)
  }

  /** The decimal digits of `n`, most significant first, without leading
      zeros: Python's `str(n)` for a non-negative integer. */
  function NatToString(n: nat): (s: string)
    ensures 1 <= |s| && AllDigits(s)
    ensures s[0] == '0' ==> n == 0
    decreases n
  {
    if n < 10 then [DigitChar(n)] else NatToString(n / 10) + [DigitChar(n % 10)]
  }

  /** The value of a string of decimal digits (the empty string reads as 0). */
  function ParseNat(s: string): nat
    requires AllDigits(s)
  {
    if |s| == 0 then 0 else 10 * ParseNat(s[..|s| - 1]) + DigitValue(s[|s| - 1])
  }

  lemma {:induction false} ParseNatOfNatToString(n: nat)
    ensures ParseNat(NatToString(n)) == n
    decreases n
  {
    if n >= 10 {
      var s := NatToString(n);
      assert s[..|s| - 1] == NatToString(n / 10);
      ParseNatOfNatToString(n / 10);
    }
  }

  /** `str(n)` has at most `k` digits exactly when `n < 10^k`. */
  lemma {:induction false} NatToStringLength(n: nat, k: nat)
    requires k >= 1
    ensures |NatToString(n)| <= k <==> n < Pow10(k)
    decreases n
  {
    if n < 10 {
      Pow10AtLeastTen(k);
    } else if k == 1 {
      assert |NatToString(n)| == |NatToString(n / 10)| + 1;
    } else {
      NatToStringLength(n / 10, k - 1);
      assert |NatToString(n)| == |NatToString(n / 10)| + 1;
      assert n < Pow10(k) <==> n / 10 < Pow10(k - 1);
    }
  }

  lemma {:induction false} Pow10AtLeastTen(k: nat)
    requires k >= 1
    ensures Pow10(k) >= 10
  {
    if k > 1 {
      Pow10AtLeastTen(k - 1);
    }
  }

  /** Leading zeros do not change the value of a digit string. */
  lemma {:induction false} ParseNatLeadingZero(s: string)
    requires AllDigits(s)
    ensures AllDigits(['0'] + s) && ParseNat(['0'] + s) == ParseNat(s)
    decreases |s|
  {
    if |s| > 0 {
      var t := ['0'] + s;
      assert t[..|t| - 1] == ['0'] + s[..|s| - 1];
      ParseNatLeadingZero(s[..|s| - 1]);
    }
  }

  /** `s` left-padded with '0' to at least `width` characters. */
  function PadLeft(s: string, width: nat): (r: string)
    ensures |r| == if |s| >= width then |s| else width
    ensures r[|r| - |s|..] == s
    ensures forall i :: 0 <= i < |r| - |s| ==> r[i] == '0'
    decreases width - |s|
  {
    if |s| >= width then s else PadLeft(['0'] + s, width)
  }

  lemma {:induction false} ParseNatPadLeft(s: string, width: nat)
    requires AllDigits(s)
    ensures AllDigits(PadLeft(s, width)) && ParseNat(PadLeft(s, width)) == ParseNat(s)
    decreases width - |s|
  {
    if |s| < width {
      ParseNatLeadingZero(s);
      ParseNatPadLeft(['0'] + s, width);
    }
  }

  /** Python's `format(n, "0<width>d")`: the sign first, then the digits
      zero-padded so that the whole text is at least `width` long.
      `FormatInt(n, 0)` is `str(n)`. */
  function FormatInt(n: int, width: nat): string {
    if n < 0 then "-" + PadLeft(NatToString(-n), if width > 0 then width - 1 else 0)
    else PadLeft(NatToString(n), width)
  }

  function IntToString(n: int): string {
    FormatInt(n, 0)
  }

  /** Reads back an optionally negative decimal integer. */
  function ParseInt(s: string): Option<int> {
    if |s| >= 2 && s[0] == '-' && AllDigits(s[1..]) then Some(-(ParseNat(s[1..]) as int))
    else if |s| >= 1 && AllDigits(s) then Some(ParseNat(s))
    else None
  }

  /** Every zero-padded rendering of an integer reads back as that integer. */
  lemma FormatIntRoundTrip(n: int, width: nat)
    ensures ParseInt(FormatInt(n, width)) == Some(n)
  {
    if n < 0 {
      NegativeRoundTrip(n, width);
    } else {
      NonNegativeRoundTrip(n, width);
    }
  }

  lemma NegativeRoundTrip(n: int, width: nat)
    requires n < 0
    ensures ParseInt(FormatInt(n, width)) == Some(n)
  {
    var m: nat := -n;
    assert n == -(m as int);
    NegatedRoundTrip(m, width);
  }

  /** The rendering of a negated positive number reads back as it. */
  lemma NegatedRoundTrip(m: nat, width: nat)
    requires m > 0
    ensures ParseInt(FormatInt(-(m as int), width)) == Some(-(m as int))
  {
    var p := PadLeft(NatToString(m), if width > 0 then width - 1 else 0);
    assert FormatInt(-(m as int), width) == "-" + p;
    ParseNatPadLeft(NatToString(m), if width > 0 then width - 1 else 0);
    ParseNatOfNatToString(m);
    ParseSigned(p);
  }

  /** A minus sign before a digit text reads back as the negated number. */
  lemma ParseSigned(p: string)
    requires |p| >= 1 && AllDigits(p)
    ensures ParseInt("-" + p) == Some(-(ParseNat(p) as int))
  {
    assert ("-" + p)[1..] == p;
  }

  lemma NonNegativeRoundTrip(n: int, width: nat)
    requires n >= 0
    ensures ParseInt(FormatInt(n, width)) == Some(n)
  {
    var s := PadLeft(NatToString(n), width);
    ParseNatPadLeft(NatToString(n), width);
    ParseNatOfNatToString(n);
    assert IsDigit(s[0]);
  }

  /** A rendered integer never contains a character other than '-' and digits. */
  lemma FormatIntChars(n: int, width: nat)
    ensures forall i :: 0 <= i < |FormatInt(n, width)| ==>
              FormatInt(n, width)[i] == '-' || IsDigit(FormatInt(n, width)[i])
  {
    if n < 0 {
      ParseNatPadLeft(NatToString(-n), if width > 0 then width - 1 else 0);
      SignedChars(PadLeft(NatToString(-n), if width > 0 then width - 1 else 0));
    } else {
      ParseNatPadLeft(NatToString(n), width);
    }
  }

  lemma SignedChars(p: string)
    requires AllDigits(p)
    ensures forall i :: 0 <= i < |"-" + p| ==> ("-" + p)[i] == '-' || IsDigit(("-" + p)[i])
  {
    assert forall i :: 1 <= i < |"-" + p| ==> ("-" + p)[i] == p[i - 1];
  }

  /** Python's `s.split(sep)` for a one-character separator: the pieces
      between separators, empty pieces included. */
  function Split(s: string, sep: char): (parts: seq<string>)
    ensures |parts| >= 1
    ensures forall i :: 0 <= i < |parts| ==> sep !in parts[i]
  {
    if |s| == 0 then [""]
    else
      var rest := Split(s[1..], sep);
      if s[0] == sep then [""] + rest else [[s[0]] + rest[0]] + rest[1..]
  }

  /** A text holding the separator splits into at least two pieces. */
  lemma {:induction false} SplitAtLeastTwo(s: string, sep: char)
    requires sep in s
    ensures |Split(s, sep)| >= 2
    decreases |s|
  {
    if s[0] != sep {
      SplitAtLeastTwo(s[1..], sep);
    }
  }

  /** Python's `sep.join(parts)`. */
  function Join(parts: seq<string>, sep: char): string {
    if |parts| == 0 then ""
    else if |parts| == 1 then parts[0]
    else parts[0] + [sep] + Join(parts[1..], sep)
  }

  /** Joining the pieces of a split gives back the original text. */
  lemma {:induction false} JoinSplit(s: string, sep: char)
    ensures Join(Split(s, sep), sep) == s
    decreases |s|
  {
    if |s| > 0 {
      var rest := Split(s[1..], sep);
      JoinSplit(s[1..], sep);
      if s[0] == sep {
        assert ([""] + rest)[1..] == rest;
      } else if |rest| > 1 {
        var parts := [[s[0]] + rest[0]] + rest[1..];
        assert parts[1..] == rest[1..];
        assert Join(rest, sep) == rest[0] + [sep] + Join(rest[1..], sep);
      }
    }
  }

  lemma {:induction false} SplitWithoutSep(p: string, sep: char)
    requires sep !in p
    ensures Split(p, sep) == [p]
    decreases |p|
  {
    if |p| > 0 {
      SplitWithoutSep(p[1..], sep);
      assert [p[0]] + p[1..] == p;
    }
  }

  lemma {:induction false} SplitAfterPiece(p: string, sep: char, t: string)
    requires sep !in p
    ensures Split(p + [sep] + t, sep) == [p] + Split(t, sep)
    decreases |p|
  {
    var s := p + [sep] + t;
    if |p| == 0 {
      assert s[1..] == t;
    } else {
      assert s[1..] == p[1..] + [sep] + t;
      SplitAfterPiece(p[1..], sep, t);
      assert [p[0]] + p[1..] == p;
    }
  }

  /** A separator between two texts ends the last piece of the first, so
      the pieces of the whole are the pieces of each, one after the other. */
  lemma {:induction false} SplitAppend(a: string, b: string, sep: char)
    ensures Split(a + [sep] + b, sep) == Split(a, sep) + Split(b, sep)
    decreases |a|
  {
    var s := a + [sep] + b;
    if |a| == 0 {
      assert s[1..] == b;
    } else {
      assert s[1..] == a[1..] + [sep] + b;
      SplitAppend(a[1..], b, sep);
    }
  }

  /** Splitting a join of separator-free pieces gives back the pieces. */
  lemma {:induction false} SplitJoin(parts: seq<string>, sep: char)
    requires |parts| >= 1
    requires forall i :: 0 <= i < |parts| ==> sep !in parts[i]
    ensures Split(Join(parts, sep), sep) == parts
    decreases |parts|
  {
    if |parts| == 1 {
      SplitWithoutSep(parts[0], sep);
    } else {
      SplitJoin(parts[1..], sep);
      SplitAfterPiece(parts[0], sep, Join(parts[1..], sep));
      assert [parts[0]] + parts[1..] == parts;
    }
  }

  /** No piece of a four-piece list contains `sep` when none of the four
      named pieces does. */
  lemma FourPiecesWithout(a: string, b: string, c: string, d: string, sep: char)
    requires sep !in a && sep !in b && sep !in c && sep !in d
    ensures forall i :: 0 <= i < |[a, b, c, d]| ==> sep !in [a, b, c, d][i]
  {
  }

  /** No piece of a six-piece list contains `sep` when none of the six
      named pieces does. */
  lemma SixPiecesWithout(a: string, b: string, c: string, d: string, e: string, f: string, sep: char)
    requires sep !in a && sep !in b && sep !in c && sep !in d && sep !in e && sep !in f
    ensures forall i :: 0 <= i < |[a, b, c, d, e, f]| ==> sep !in [a, b, c, d, e, f][i]
  {
  }

  /** The text before the first `sep` and the text after it. */
  function SplitFirst(s: string, sep: char): (r: Option<(string, string)>)
    ensures r.None? <==> sep !in s
    ensures r.Some? ==> sep !in r.value.0 && s == r.value.0 + [sep] + r.value.1
  {
    if |s| == 0 then None
    else if s[0] == sep then Some(("", s[1..]))
    else match SplitFirst(s[1..], sep)
      case None => None
      case Some((a, b)) => Some(([s[0]] + a, b))
  }

  lemma {:induction false} SplitFirstOfJoin(a: string, sep: char, b: string)
    requires sep !in a
    ensures SplitFirst(a + [sep] + b, sep) == Some((a, b))
    decreases |a|
  {
    var s := a + [sep] + b;
    if |a| == 0 {
      assert s[1..] == b;
    } else {
      assert s[0] == a[0] && s[1..] == a[1..] + [sep] + b;
      SplitFirstOfJoin(a[1..], sep, b);
      assert [a[0]] + a[1..] == a;
    }
  }

  /** Python's `str.isspace()` for one character. */
  predicate IsSpace(c: char) {
    var k := c as int;
    k == 0x20 || 0x09 <= k <= 0x0d || 0x1c <= k <= 0x1f || k == 0x85 || k == 0xa0
    || k == 0x1680 || 0x2000 <= k <= 0x200a || k == 0x2028 || k == 0x2029
    || k == 0x202f || k == 0x205f || k == 0x3000
  }

  function TrimLeft(s: string): (r: string)
    ensures |r| <= |s| && r == s[|s| - |r|..]
    ensures forall i :: 0 <= i < |s| - |r| ==> IsSpace(s[i])
    ensures |r| > 0 ==> !IsSpace(r[0])
  {
    if |s| > 0 && IsSpace(s[0]) then TrimLeft(s[1..]) else s
  }

  function TrimRight(s: string): (r: string)
    ensures |r| <= |s| && r == s[..|r|]
    ensures forall i :: |r| <= i < |s| ==> IsSpace(s[i])
    ensures |r| > 0 ==> !IsSpace(r[|r| - 1])
  {
    if |s| > 0 && IsSpace(s[|s| - 1]) then TrimRight(s[..|s| - 1]) else s
  }

  /** Python's `s.strip()`: the text without leading and trailing whitespace. */
  function Strip(s: string): (r: string)
    ensures |r| <= |s|
  {
    TrimRight(TrimLeft(s))
  }

  /** Every character of the stripped text comes from the original. */
  lemma StripChars(s: string)
    ensures forall i :: 0 <= i < |Strip(s)| ==> Strip(s)[i] in s
  {
    var l := TrimLeft(s);
    var r := TrimRight(l);
    forall i | 0 <= i < |r|
      ensures r[i] in s
    {
      assert r[i] == l[i];
      assert l[i] == s[|s| - |l| + i];
    }
  }

  /** The stripped text neither starts nor ends with whitespace. */
  lemma StripEnds(s: string)
    ensures |Strip(s)| > 0 ==> !IsSpace(Strip(s)[0]) && !IsSpace(Strip(s)[|Strip(s)| - 1])
  {
    var l := TrimLeft(s);
    var r := TrimRight(l);
    if |r| > 0 {
      assert r[0] == l[0];
    }
  }

  /** Stripping gives the empty text exactly for all-whitespace text. */
  lemma StripEmpty(s: string)
    ensures Strip(s) == "" <==> forall i :: 0 <= i < |s| ==> IsSpace(s[i])
  {
    var l := TrimLeft(s);
    var r := TrimRight(l);
    if r == "" {
      assert |l| == 0;
    } else {
      assert !IsSpace(s[|s| - |l|]);
    }
  }

  /** Text without outer whitespace is left alone. */
  lemma StripUnchanged(s: string)
    requires |s| > 0 && !IsSpace(s[0]) && !IsSpace(s[|s| - 1])
    ensures Strip(s) == s
  {
  }

  /** Substring containment: Python's `pat in text` (and pandas'
      `str.contains` for a pattern without regular-expression syntax). */
  predicate Contains(text: string, pat: string)
    decreases |text|
  {
    if |pat| > |text| then false
    else text[..|pat|] == pat || (|text| > 0 && Contains(text[1..], pat))
  }

  /** `Contains` holds exactly when `pat` occurs at some position. */
  lemma {:induction false} ContainsAt(text: string, pat: string, k: nat)
    requires k + |pat| <= |text| && text[k..k + |pat|] == pat
    ensures Contains(text, pat)
    decreases k
  {
    if k > 0 {
      assert text[1..][k - 1..k - 1 + |pat|] == text[k..k + |pat|];
      ContainsAt(text[1..], pat, k - 1);
    }
  }

  lemma {:induction false} ContainsWitness(text: string, pat: string) returns (k: nat)
    requires Contains(text, pat)
    ensures k + |pat| <= |text| && text[k..k + |pat|] == pat
    decreases |text|
  {
    if text[..|pat|] == pat {
      k := 0;
    } else {
      var j := ContainsWitness(text[1..], pat);
      k := j + 1;
      assert text[k..k + |pat|] == text[1..][j..j + |pat|];
    }
  }

  /** ASCII upper-casing of one character (Python's `str.upper` on ASCII). */
  function UpperChar(c: char): (u: char)
    ensures !('a' <= u <= 'z')
  {
    if 'a' <= c <= 'z' then (c as int - 32) as char else c
  }

  function Upper(s: string): (r: string)
    ensures |r| == |s|
    ensures forall i :: 0 <= i < |s| ==> r[i] == UpperChar(s[i])
  {
    seq(|s|, i requires 0 <= i < |s| => UpperChar(s[i]))
  }

  lemma UpperAppend(a: string, b: string)
    ensures Upper(a + b) == Upper(a) + Upper(b)
  {
  }
}
