/** Decimal rendering and parsing of integers as ECMAScript performs them:
    `String(n)`, `s.padStart(len, '0')` and `parseInt(s, 10)`. */
module Numerals {
  import opened Wrappers
  import Text

  predicate IsDigit(c: char)
  {
    '0' <= c <= '9'
  }

  function DigitChar(d: int): (c: char)
    requires 0 <= d <= 9
    ensures IsDigit(c)
  {
    ('0' as int + d) as char
  }

  function DigitValue(c: char): (d: int)
    requires IsDigit(c)
    ensures 0 <= d <= 9
    ensures DigitChar(d) == c
  {
    c as int - '0' as int
  }

  predicate AllDigits(s: string)
  {
    forall i :: 0 <= i < |s| ==> IsDigit(s[i])
  }

  /** The value of a run of decimal digits, most significant first. */
  function DigitsValue(s: string): (v: nat)
    requires AllDigits(s)
  {
    if |s| == 0 then 0 else DigitsValue(s[..|s| - 1]) * 10 + DigitValue(s[|s| - 1])
  }

  /** `String(n)` for a non-negative integer. */
  function NatToString(n: nat): (s: string)
    ensures |s| >= 1 && AllDigits(s)
  {
    if n < 10 then [DigitChar(n)] else NatToString(n / 10) + [DigitChar(n % 10)]
  }

  /** `String(n)` for any integer. */
  function IntToString(n: int): string
  {
    if n < 0 then "-" + NatToString(-n) else NatToString(n)
  }

  /** `s.padStart(len, c)` with a one-character pad: never truncates. */
  function PadStart(s: string, len: nat, c: char): (r: string)
    ensures |r| == if |s| >= len then |s| else len
    ensures r[|r| - |s|..] == s
    ensures forall i :: 0 <= i < |r| - |s| ==> r[i] == c
  {
    if |s| >= len then s else Repeat(c, len - |s|) + s
  }

  /** `k` copies of `c`. */
  function Repeat(c: char, k: nat): (r: string)
    ensures |r| == k
    ensures forall i :: 0 <= i < k ==> r[i] == c
  {
    if k == 0 then "" else [c] + Repeat(c, k - 1)
  }

  /** The longest prefix of `s` made of decimal digits. */
  function LeadingDigits(s: string): (r: string)
    ensures AllDigits(r) && |r| <= |s| && r == s[..|r|]
    ensures |r| < |s| ==> !IsDigit(s[|r|])
  {
    if |s| > 0 && IsDigit(s[0]) then [s[0]] + LeadingDigits(s[1..]) else ""
  }

  /** `parseInt(s, 10)`: leading whitespace, an optional sign, then the longest
      run of digits; `None` stands for `NaN` (no digit at that point). */
  function ParseInt(s: string): (r: Option<int>)
  {
    var t := Text.TrimStart(s);
    var negative := |t| > 0 && t[0] == '-';
    var body := if |t| > 0 && (t[0] == '-' || t[0] == '+') then t[1..] else t;
    var digits := LeadingDigits(body);
    var magnitude: int := if |digits| == 0 then 0 else DigitsValue(digits);
    if |digits| == 0 then None
    else if negative then Some(-magnitude)
    else Some(magnitude)
  }

  /** Without a minus sign in the text, `parseInt` yields no negative number. */
  lemma ParseIntNonNegative(s: string)
    requires '-' !in s
    ensures ParseInt(s).Some? ==> ParseInt(s).value >= 0
  {
    var t := Text.TrimStart(s);
    if |t| > 0 {
      assert t[0] == s[|s| - |t|];
    }
  }

  lemma {:induction false} LeadingDigitsOfDigits(s: string)
    requires AllDigits(s)
    ensures LeadingDigits(s) == s
    decreases |s|
  {
    if |s| > 0 {
      LeadingDigitsOfDigits(s[1..]);
    }
  }

  lemma {:induction false} NatToStringValue(n: nat)
    ensures DigitsValue(NatToString(n)) == n
    decreases n
  {
    if n >= 10 {
      NatToStringValue(n / 10);
      var s := NatToString(n);
      assert s[..|s| - 1] == NatToString(n / 10);
    }
  }

  /** Leading zeros do not change the value of a digit run. */
  lemma {:induction false} LeadingZeroValue(z: nat, s: string)
    requires AllDigits(s)
    ensures AllDigits(Repeat('0', z) + s)
    ensures DigitsValue(Repeat('0', z) + s) == DigitsValue(s)
    decreases |s|
  {
    var t := Repeat('0', z) + s;
    assert AllDigits(t);
    if |s| == 0 {
      ZerosValue(z);
      assert t == Repeat('0', z);
    } else {
      LeadingZeroValue(z, s[..|s| - 1]);
      assert t[..|t| - 1] == Repeat('0', z) + s[..|s| - 1];
    }
  }

  lemma {:induction false} ZerosValue(z: nat)
    ensures AllDigits(Repeat('0', z))
    ensures DigitsValue(Repeat('0', z)) == 0
    decreases z
  {
    if z > 0 {
      ZerosValue(z - 1);
      assert Repeat('0', z)[..z - 1] == Repeat('0', z - 1);
    }
  }

  /** An all-digit string starting with a digit parses to its value. */
  lemma ParseDigits(p: string)
    requires |p| > 0 && AllDigits(p)
    ensures ParseInt(p) == Some(DigitsValue(p))
  {
    assert IsDigit(p[0]);
    assert !Text.IsWhitespace(p[0]);
    Text.TrimStartOfTrimmed(p);
    LeadingDigitsOfDigits(p);
  }

  /** A minus sign and digits: `parseInt` negates the digits' value. */
  lemma ParseNegativeDigits(p: string)
    requires |p| > 1 && p[0] == '-' && AllDigits(p[1..])
    ensures ParseInt(p) == Some(-(DigitsValue(p[1..]) as int))
  {
    assert !Text.IsWhitespace(p[0]);
    Text.TrimStartOfTrimmed(p);
    LeadingDigitsOfDigits(p[1..]);
  }

  /** Zero padding of a non-negative number parses back to that number. */
  lemma PaddedRoundTrip(n: nat, len: nat)
    ensures AllDigits(PadStart(NatToString(n), len, '0'))
    ensures ParseInt(PadStart(NatToString(n), len, '0')) == Some(n)
  {
    var s := NatToString(n);
    var p := PadStart(s, len, '0');
    NatToStringValue(n);
    if |s| < len {
      assert p == Repeat('0', len - |s|) + s;
      LeadingZeroValue(len - |s|, s);
      ParseDigits(p);
    } else {
      assert p == s;
      ParseDigits(s);
    }
  }

  /** `String(n)` of a non-negative number parses back to it. */
  lemma NatStringRoundTrip(n: nat)
    ensures ParseInt(IntToString(n)) == Some(n)
  {
    PaddedRoundTrip(n, 0);
    assert PadStart(NatToString(n), 0, '0') == NatToString(n);
  }

  /** Digits contain no minus sign. */
  lemma NoDashInDigits(s: string)
    requires AllDigits(s)
    ensures '-' !in s
  {
  }

  /** The four-character zero-padded rendering used for sequence numbers. */
  function Pad4(n: nat): string
  {
    PadStart(NatToString(n), 4, '0')
  }

  lemma NatToStringStep(n: nat)
    requires n >= 10
    ensures NatToString(n) == NatToString(n / 10) + [DigitChar(n % 10)]
  {
  }

  /** Padding commutes with appending one character. */
  lemma PadStartAppend(x: string, c: char, k: nat, z: char)
    requires k >= 1
    ensures PadStart(x + [c], k, z) == PadStart(x, k - 1, z) + [c]
  {
    if |x| + 1 < k {
      assert PadStart(x + [c], k, z) == Repeat(z, k - 1 - |x|) + (x + [c]);
    }
  }

  lemma {:induction false} ZeroDigits(j: nat)
    ensures DigitsPrefix(0, j) == Repeat('0', j)
    decreases j
  {
    if j > 0 {
      ZeroDigits(j - 1);
      var r := Repeat('0', j);
      assert r == Repeat('0', j - 1) + ['0'];
    }
  }

  /** Zero padding to `k` characters renders the last `k` digits of a number
      with fewer than `k + 1` digits. */
  lemma {:induction false} PadDigits(n: nat, k: nat)
    requires 1 <= k && n < Power10(k)
    ensures PadStart(NatToString(n), k, '0') == DigitsPrefix(n, k)
    decreases k
  {
    if n < 10 {
      PadOneDigit(n, k);
    } else {
      assert k >= 2 && Power10(k) == 10 * Power10(k - 1);
      PadDigits(n / 10, k - 1);
      PadNextDigit(n, k);
    }
  }

  /** Padding a number with one more digit appends that digit to the padded
      rendering of the rest. */
  lemma PadNextDigit(n: nat, k: nat)
    requires 2 <= k && n >= 10
    requires PadStart(NatToString(n / 10), k - 1, '0') == DigitsPrefix(n / 10, k - 1)
    ensures PadStart(NatToString(n), k, '0') == DigitsPrefix(n, k)
  {
    NatToStringStep(n);
    PadStartAppend(NatToString(n / 10), DigitChar(n % 10), k, '0');
  }

  /** A single digit padded to `k` characters: `k - 1` zeros, then the digit. */
  lemma PadOneDigit(n: nat, k: nat)
    requires 1 <= k && n < 10
    ensures PadStart(NatToString(n), k, '0') == DigitsPrefix(n, k)
  {
    var d := DigitChar(n);
    assert n / 10 == 0 && n % 10 == n;
    assert DigitsPrefix(n, k) == DigitsPrefix(0, k - 1) + [d];
    ZeroDigits(k - 1);
    assert NatToString(n) == [d];
    if k > 1 {
      assert PadStart([d], k, '0') == Repeat('0', k - 1) + [d];
    }
  }

  /** Below 10000 the padded rendering is exactly the four last decimal digits. */
  lemma Pad4Digits(n: nat)
    requires n <= 9999
    ensures Pad4(n) == DigitsPrefix(n, 4)
  {
    assert Power10(4) == 10000;
    PadDigits(n, 4);
  }

  /** Two-digit zero padding, as used for months and days. */
  function Pad2(n: nat): string
  {
    PadStart(NatToString(n), 2, '0')
  }

  lemma Pad2Digits(n: nat)
    requires n <= 99
    ensures Pad2(n) == [DigitChar(n / 10), DigitChar(n % 10)]
  {
    if n >= 10 {
      NatToStringStep(n);
      assert NatToString(n) == [DigitChar(n / 10), DigitChar(n % 10)];
    } else {
      assert Repeat('0', 1) == "0";
    }
  }

  lemma DigitCharOrder(a: int, b: int)
    requires 0 <= a <= 9 && 0 <= b <= 9
    ensures DigitChar(a) < DigitChar(b) <==> a < b
    ensures DigitChar(a) == DigitChar(b) <==> a == b
  {
  }

  /** Comparing two digit strings is comparing the last digit under equal
      leading parts. */
  lemma LexLessLast(x: string, y: string, c: char, d: char)
    requires |x| == |y|
    ensures Text.LexLess(x + [c], y + [d]) <==> Text.LexLess(x, y) || (x == y && c < d)
    decreases |x|
  {
    if |x| == 0 {
      assert x + [c] == [c] && y + [d] == [d];
      assert [c][1..] == [] && [d][1..] == [];
    } else {
      assert (x + [c])[0] == x[0] && (y + [d])[0] == y[0];
      assert (x + [c])[1..] == x[1..] + [c] && (y + [d])[1..] == y[1..] + [d];
      LexLessLast(x[1..], y[1..], c, d);
      if x[0] == y[0] && x[1..] == y[1..] {
        assert x == y;
      }
      if x == y {
        assert x[1..] == y[1..];
      }
    }
  }

  /** Numeric order of `10 q + r` with a digit `r`. */
  lemma NumericStep(a: nat, b: nat)
    ensures a < b <==> a / 10 < b / 10 || (a / 10 == b / 10 && a % 10 < b % 10)
  {
  }

  lemma {:induction false} DigitsOrder(a: nat, b: nat, k: nat)
    requires 1 <= k <= 4
    requires a < Power10(k) && b < Power10(k)
    ensures Text.LexLess(DigitsPrefix(a, k), DigitsPrefix(b, k)) <==> a < b
    decreases k
  {
    NumericStep(a, b);
    DigitCharOrder(a % 10, b % 10);
    if k == 1 {
      assert DigitsPrefix(a, k) == [] + [DigitChar(a % 10)];
      assert DigitsPrefix(b, k) == [] + [DigitChar(b % 10)];
      LexLessLast([], [], DigitChar(a % 10), DigitChar(b % 10));
    } else {
      DigitsOrder(a / 10, b / 10, k - 1);
      LexLessLast(DigitsPrefix(a / 10, k - 1), DigitsPrefix(b / 10, k - 1), DigitChar(a % 10), DigitChar(b % 10));
      DigitsPrefixInjective(a / 10, b / 10, k - 1);
    }
  }

  function Power10(k: nat): nat
  {
    if k == 0 then 1 else 10 * Power10(k - 1)
  }

  /** The last `k` decimal digits of `n`. */
  function DigitsPrefix(n: nat, k: nat): (r: string)
    ensures |r| == k
  {
    if k == 0 then "" else DigitsPrefix(n / 10, k - 1) + [DigitChar(n % 10)]
  }

  lemma {:induction false} DigitsPrefixInjective(a: nat, b: nat, k: nat)
    requires a < Power10(k) && b < Power10(k)
    ensures DigitsPrefix(a, k) == DigitsPrefix(b, k) <==> a == b
    decreases k
  {
    if k > 0 {
      DigitsPrefixInjective(a / 10, b / 10, k - 1);
      DigitCharOrder(a % 10, b % 10);
      var x, y := DigitsPrefix(a, k), DigitsPrefix(b, k);
      if x == y {
        assert x[..k - 1] == y[..k - 1];
        assert x[k - 1] == y[k - 1];
      }
    }
  }

  /** For sequence numbers up to 9999, string order of the padded rendering is
      numeric order. */
  lemma Pad4Order(a: nat, b: nat)
    requires a <= 9999 && b <= 9999
    ensures Text.LexLess(Pad4(a), Pad4(b)) <==> a < b
  {
    Pad4Digits(a);
    Pad4Digits(b);
    assert Power10(4) == 10000;
    DigitsOrder(a, b, 4);
  }
}
