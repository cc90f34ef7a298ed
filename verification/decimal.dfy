/**
 Decimal text of natural numbers as `printf` writes it: `%llu` (no padding)
 and `%0Nllu` (zero-padded to at least N characters), with a parser that
 reads the digits back.
 */
module Decimal {
  import opened CInt

  predicate IsDigit(c: char)
  {
    '0' <= c <= '9'
  }

  predicate AllDigits(s: string)
  {
    forall i :: 0 <= i < |s| ==> IsDigit(s[i])
  }

  function DigitChar(d: nat): (c: char)
    requires d < 10
    ensures IsDigit(c)
  {
    ['0', '1', '2', '3', '4', '5', '6', '7', '8', '9'][d]
  }

  function DigitValue(c: char): (d: nat)
    requires IsDigit(c)
    ensures d < 10 && DigitChar(d) == c
  {
    (c as int - '0' as int) as nat
  }

  /** `%llu`: the shortest decimal text, "0" for zero. */
  function Dec(n: nat): (s: string)
    ensures |s| >= 1 && AllDigits(s)
    ensures |s| > 1 ==> s[0] != '0'
    decreases n
  {
    if n < 10 then [DigitChar(n)] else Dec(n / 10) + [DigitChar(n % 10)]
  }

  /** k zero characters. */
  function Zeros(k: nat): (s: string)
    ensures |s| == k && AllDigits(s)
  {
    seq(k, _ => '0')
  }

  /** `%0<w>llu`: the decimal text, left-padded with zeros to width `w`. */
  function Pad(w: nat, n: nat): (s: string)
    ensures AllDigits(s)
    ensures |s| == if |Dec(n)| < w then w else |Dec(n)|
  {
    var d := Dec(n);
    (if |d| < w then Zeros(w - |d|) else []) + d
  }

  /** The value of a string of digits, most significant first. */
  function Parse(s: string): nat
    requires AllDigits(s)
    decreases |s|
  {
    if |s| == 0 then 0 else 10 * Parse(s[..|s| - 1]) + DigitValue(s[|s| - 1])
  }

  /** Reading `%llu` text back yields the number. */
  lemma {:induction false} ParseDec(n: nat)
    ensures Parse(Dec(n)) == n
    decreases n
  {
    if n >= 10 {
      var s := Dec(n);
      assert s[..|s| - 1] == Dec(n / 10);
      ParseDec(n / 10);
    }
  }

  /** Parsing a concatenation: the left part is worth 10^|b| times more. */
  lemma {:induction false} ParseAppend(a: string, b: string)
    requires AllDigits(a) && AllDigits(b)
    ensures AllDigits(a + b)
    ensures Parse(a + b) == Parse(a) * Pow10(|b|) + Parse(b)
    decreases |b|
  {
    if |b| == 0 {
      assert a + b == a;
    } else {
      var b' := b[..|b| - 1];
      assert (a + b)[..|a + b| - 1] == a + b';
      ParseAppend(a, b');
      var ab := a + b;
      assert AllDigits(ab) && AllDigits(b');
      var A, B', P, d := Parse(a), Parse(b'), Pow10(|b'|), DigitValue(b[|b| - 1]);
      assert ab[|ab| - 1] == b[|b| - 1];
      assert Parse(ab) == 10 * Parse(a + b') + d;
      assert Parse(b) == 10 * B' + d;
      assert Pow10(|b|) == 10 * P;
      ShiftDigit(A, P, B', d);
    }
  }

  lemma ShiftDigit(a: int, p: int, b: int, d: int)
    ensures 10 * (a * p + b) + d == a * (10 * p) + (10 * b + d)
  {
  }

  lemma {:induction false} ParseZeros(k: nat)
    ensures Parse(Zeros(k)) == 0
    decreases k
  {
    if k > 0 {
      assert Zeros(k)[..k - 1] == Zeros(k - 1);
      ParseZeros(k - 1);
    }
  }

  /** Reading `%0<w>llu` text back yields the number. */
  lemma ParsePad(w: nat, n: nat)
    ensures Parse(Pad(w, n)) == n
  {
    var d := Dec(n);
    ParseDec(n);
    if |d| < w {
      ParseAppend(Zeros(w - |d|), d);
      ParseZeros(w - |d|);
    } else {
      assert Pad(w, n) == d;
    }
  }

  /** `%llu` text has at most k digits exactly when the number is below
      10^k. */
  lemma {:induction false} DecLength(n: nat, k: nat)
    requires k >= 1
    ensures |Dec(n)| <= k <==> n < Pow10(k)
    decreases n
  {
    if n >= 10 {
      if k == 1 {
        assert |Dec(n)| >= 2 by { assert Dec(n) == Dec(n / 10) + [DigitChar(n % 10)]; }
      } else {
        DecLength(n / 10, k - 1);
        assert n < Pow10(k) <==> n / 10 < Pow10(k - 1);
      }
    } else {
      assert Pow10(k) >= 10 by { Pow10AtLeastTen(k); }
    }
  }

  lemma {:induction false} Pow10AtLeastTen(k: nat)
    requires k >= 1
    ensures Pow10(k) >= 10
    decreases k
  {
    if k > 1 {
      Pow10AtLeastTen(k - 1);
    }
  }

  /** A number below 10^w is padded to exactly w digits by `%0<w>llu`. */
  lemma PadWidth(w: nat, n: nat)
    requires w >= 1 && n < Pow10(w)
    ensures |Pad(w, n)| == w
  {
    DecLength(n, w);
  }

  /** The number of leading digit characters of `s`. */
  function LeadingDigits(s: string): (n: nat)
    ensures n <= |s|
    ensures AllDigits(s[..n])
    ensures n < |s| ==> !IsDigit(s[n])
    decreases |s|
  {
    if |s| == 0 || !IsDigit(s[0]) then 0
    else
      var k := LeadingDigits(s[1..]);
      assert s[..k + 1] == [s[0]] + s[1..][..k];
      k + 1
  }

  /** The leading digits of `a + b` are exactly `a` when `b` does not start
      with a digit. */
  lemma {:induction false} LeadingDigitsOfAppend(a: string, b: string)
    requires AllDigits(a)
    requires |b| > 0 && !IsDigit(b[0])
    ensures LeadingDigits(a + b) == |a|
    decreases |a|
  {
    if |a| > 0 {
      assert (a + b)[1..] == a[1..] + b;
      LeadingDigitsOfAppend(a[1..], b);
    }
  }
}
