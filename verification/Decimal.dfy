/** Decimal numerals, as "%0*d" prints them and as digit strings are read.
 */
module Decimal {
  import Strings

  predicate IsDigit(c: char) {
    '0' <= c <= '9'
  }

  /** Every character is a digit; true of the empty string. */
  predicate AllDigits(s: string) {
    forall i :: 0 <= i < |s| ==> IsDigit(s[i])
  }

  function DigitValue(c: char): nat
    requires IsDigit(c)
  {
    (c - '0') as nat
  }

  /** The number a digit string denotes; leading zeros do not count. */
  function ValueOf(s: string): nat
    requires AllDigits(s)
  {
    if s == [] then 0 else 10 * ValueOf(s[..|s| - 1]) + DigitValue(s[|s| - 1])
  }

  function Numeral(n: nat): (s: string)
    ensures s != [] && AllDigits(s)
  {
    var last := ('0' as int + n % 10) as char;
    if n < 10 then [last] else Numeral(n / 10) + [last]
  }

  /** The numeral padded with zeros to at least the given width. */
  function Padded(n: nat, width: nat): (s: string)
    ensures s != [] && AllDigits(s)
  {
    Zeros(if |Numeral(n)| < width then width - |Numeral(n)| else 0) + Numeral(n)
  }

  function Zeros(k: nat): (s: string)
    ensures |s| == k && forall i :: 0 <= i < k ==> s[i] == '0'
  {
    seq(k, _ => '0')
  }

  lemma {:induction false} ZerosDoNotCount(k: nat, s: string)
    requires AllDigits(s)
    ensures AllDigits(Zeros(k) + s) && ValueOf(Zeros(k) + s) == ValueOf(s)
    decreases k + |s|
  {
    var z := Zeros(k) + s;
    if s != [] {
      ZerosDoNotCount(k, s[..|s| - 1]);
      assert z[..|z| - 1] == Zeros(k) + s[..|s| - 1];
    } else if k > 0 {
      ZerosDoNotCount(k - 1, s);
      assert z[..|z| - 1] == Zeros(k - 1) + s;
    }
  }

  lemma {:induction false} NumeralDenotes(n: nat)
    ensures ValueOf(Numeral(n)) == n
  {
    var s := Numeral(n);
    if n < 10 {
      assert ValueOf(s[..|s| - 1]) == 0;
    } else {
      NumeralDenotes(n / 10);
      assert s[..|s| - 1] == Numeral(n / 10);
    }
  }

  /** Printing with a width loses nothing: different numbers print differently. */
  lemma PaddedDenotes(n: nat, width: nat)
    ensures ValueOf(Padded(n, width)) == n
  {
    NumeralDenotes(n);
    ZerosDoNotCount(if |Numeral(n)| < width then width - |Numeral(n)| else 0, Numeral(n));
  }

  // ---- comparing digit strings as numbers ----

  /** The digits without leading zeros; nothing is left of zero. */
  function TrimZeros(s: string): string {
    if s != [] && s[0] == '0' then TrimZeros(s[1..]) else s
  }

  lemma {:induction false} TrimmedZeros(s: string)
    requires AllDigits(s)
    ensures AllDigits(TrimZeros(s)) && ValueOf(TrimZeros(s)) == ValueOf(s)
    ensures TrimZeros(s) == [] || TrimZeros(s)[0] != '0'
  {
    if s != [] && s[0] == '0' {
      TrimmedZeros(s[1..]);
      ZerosDoNotCount(1, s[1..]);
      assert s == Zeros(1) + s[1..];
    }
  }

  lemma {:induction false} LeadingDigitCounts(s: string)
    requires AllDigits(s) && s != [] && s[0] != '0'
    ensures ValueOf(s) > 0
  {
    if |s| == 1 {
      assert ValueOf(s[..0]) == 0;
    } else {
      LeadingDigitCounts(s[..|s| - 1]);
    }
  }

  /** More digits, a larger number. */
  lemma {:induction false} ShorterIsLess(a: string, b: string)
    requires AllDigits(a) && AllDigits(b) && |a| < |b| && b[0] != '0'
    ensures ValueOf(a) < ValueOf(b)
  {
    if a == [] {
      LeadingDigitCounts(b);
    } else {
      ShorterIsLess(a[..|a| - 1], b[..|b| - 1]);
    }
  }

  lemma {:induction false} CompareOneMore(a: string, b: string)
    requires |a| == |b| && a != []
    ensures var n := |a| - 1;
      Strings.Compare(a, b) == if Strings.Compare(a[..n], b[..n]) != 0 then Strings.Compare(a[..n], b[..n])
                               else if a[n] < b[n] then -1 else if a[n] > b[n] then 1 else 0
  {
    if |a| > 1 {
      var n := |a| - 1;
      CompareOneMore(a[1..], b[1..]);
      assert a[..n][1..] == a[1..][..n - 1] && b[..n][1..] == b[1..][..n - 1];
    }
  }

  /** As many digits: the first that differs decides. */
  lemma {:induction false} SameLengthOrder(a: string, b: string)
    requires AllDigits(a) && AllDigits(b) && |a| == |b|
    ensures Strings.Compare(a, b) < 0 <==> ValueOf(a) < ValueOf(b)
    ensures Strings.Compare(a, b) > 0 <==> ValueOf(a) > ValueOf(b)
  {
    if a != [] {
      SameLengthOrder(a[..|a| - 1], b[..|b| - 1]);
      CompareOneMore(a, b);
      assert IsDigit(a[|a| - 1]) && IsDigit(b[|b| - 1]);
    }
  }
}
