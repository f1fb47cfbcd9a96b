/**
 * Output file names of the segmented writer: `{prefix}_{index:03}.mp3`, the
 * index written in decimal and left-padded with zeros to at least three digits.
 */
module SegmentNames {

  predicate IsDigit(c: char) { '0' <= c <= '9' }

  function DigitChar(d: nat): (c: char)
    requires d < 10
    ensures IsDigit(c) && c as int - '0' as int == d
  {
    ('0' as int + d) as char
  }

  function DigitValue(c: char): nat
    requires IsDigit(c)
  {
    c as int - '0' as int
  }

  /** Decimal digits of `n`, most significant first, without leading zeros. */
  function Decimal(n: nat): (s: string)
    ensures 1 <= |s| && forall i :: 0 <= i < |s| ==> IsDigit(s[i])
    ensures n == 0 ==> s == "0"
    ensures n > 0 ==> s[0] != '0'
  {
    if n < 10 then [DigitChar(n)] else Decimal(n / 10) + [DigitChar(n % 10)]
  }

  function Zeros(k: nat): (s: string)
    ensures |s| == k && forall i :: 0 <= i < k ==> s[i] == '0'
  {
    if k == 0 then [] else Zeros(k - 1) + ['0']
  }

  /** The `{:03}` format: zero-padded to a width of at least three. */
  function IndexText(n: nat): (s: string)
    ensures 3 <= |s| && forall i :: 0 <= i < |s| ==> IsDigit(s[i])
    ensures |s| == if |Decimal(n)| >= 3 then |Decimal(n)| else 3
    ensures s[|s| - |Decimal(n)|..] == Decimal(n)
    ensures forall i :: 0 <= i < |s| - |Decimal(n)| ==> s[i] == '0'
    ensures |s| > 3 ==> s[0] != '0'
  {
    var d := Decimal(n);
    if |d| >= 3 then d else Zeros(3 - |d|) + d
  }

  /** The name `open_next` gives to the segment with index `n`. */
  function SegmentName(prefix: string, n: nat): (s: string)
    ensures |s| == |prefix| + |IndexText(n)| + 5
  {
    prefix + "_" + IndexText(n) + ".mp3"
  }

  /** A segment name is the prefix, `'_'`, the padded index and `".mp3"`, in that order. */
  lemma SegmentNameParts(prefix: string, n: nat)
    ensures SegmentName(prefix, n)[..|prefix|] == prefix
    ensures SegmentName(prefix, n)[|prefix|] == '_'
    ensures SegmentName(prefix, n)[|prefix| + 1 .. |SegmentName(prefix, n)| - 4] == IndexText(n)
    ensures SegmentName(prefix, n)[|SegmentName(prefix, n)| - 4..] == ".mp3"
  {
  }

  /** Reads a string of digits back as a number; leading zeros add nothing. */
  function ParseDecimal(s: string): nat
    requires forall i :: 0 <= i < |s| ==> IsDigit(s[i])
  {
    if s == [] then 0 else ParseDecimal(s[..|s| - 1]) * 10 + DigitValue(s[|s| - 1])
  }

  lemma {:induction false} ParseDecimalOfDecimal(n: nat)
    ensures ParseDecimal(Decimal(n)) == n
  {
    if n >= 10 {
      var s := Decimal(n);
      assert s[..|s| - 1] == Decimal(n / 10);
      ParseDecimalOfDecimal(n / 10);
    }
  }

  lemma {:induction false} ParseDecimalIgnoresLeadingZeros(k: nat, s: string)
    requires forall i :: 0 <= i < |s| ==> IsDigit(s[i])
    ensures ParseDecimal(Zeros(k) + s) == ParseDecimal(s)
  {
    if s == [] {
      assert Zeros(k) + s == Zeros(k);
      ZerosParseToZero(k);
    } else {
      var t := Zeros(k) + s;
      assert t[..|t| - 1] == Zeros(k) + s[..|s| - 1];
      ParseDecimalIgnoresLeadingZeros(k, s[..|s| - 1]);
    }
  }

  lemma {:induction false} ZerosParseToZero(k: nat)
    ensures ParseDecimal(Zeros(k)) == 0
  {
    if k > 0 {
      assert Zeros(k)[..k - 1] == Zeros(k - 1);
      ZerosParseToZero(k - 1);
    }
  }

  /** The padded index text reads back as the index: padding loses nothing. */
  lemma IndexTextRoundTrip(n: nat)
    ensures ParseDecimal(IndexText(n)) == n
  {
    ParseDecimalOfDecimal(n);
    var d := Decimal(n);
    if |d| < 3 {
      ParseDecimalIgnoresLeadingZeros(3 - |d|, d);
    }
  }

  /** Distinct indices give distinct file names, so no segment file is reused. */
  lemma SegmentNamesDistinct(prefix: string, m: nat, n: nat)
    requires m != n
    ensures SegmentName(prefix, m) != SegmentName(prefix, n)
  {
    if SegmentName(prefix, m) == SegmentName(prefix, n) {
      var a, b := SegmentName(prefix, m), SegmentName(prefix, n);
      assert |IndexText(m)| == |IndexText(n)|;
      SegmentNameParts(prefix, m);
      SegmentNameParts(prefix, n);
      IndexTextRoundTrip(m);
      IndexTextRoundTrip(n);
      assert false;
    }
  }
}
