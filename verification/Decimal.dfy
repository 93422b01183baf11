/**
 Decimal printing with a minimum width, as Rust's `{value:012}` prints it, and
 the digit strings that read back.  Identifiers all over the benchmark tools
 are built from such numbers, so distinctness of identifiers rests on this
 module.
 */
module Decimal {
  import opened Wrappers

  predicate IsDigit(c: char) {
    '0' <= c <= '9'
  }

  predicate AllDigits(s: string) {
    forall i :: 0 <= i < |s| ==> IsDigit(s[i])
  }

  function DigitChar(d: nat): (c: char)
    requires d < 10
    ensures IsDigit(c) && DigitValue(c) == d
  {
    ('0' as int + d) as char
  }

  function DigitValue(c: char): (d: nat)
    requires IsDigit(c)
    ensures d < 10
  {
    c as int - '0' as int
  }

  /** The number without padding: no leading zero except for zero itself. */
  function Digits(n: nat): (s: string)
    ensures s != "" && AllDigits(s)
  {
    if n < 10 then [DigitChar(n)] else Digits(n / 10) + [DigitChar(n % 10)]
  }

  function Zeros(count: nat): (s: string)
    ensures |s| == count && AllDigits(s)
    ensures forall i :: 0 <= i < count ==> s[i] == '0'
  {
    seq(count, _ => '0')
  }

  /** Zero-padded to at least `width` characters; a longer number is not cut. */
  function Padded(n: nat, width: nat): (s: string)
    ensures s != "" && |s| >= width && AllDigits(s)
  {
    var digits := Digits(n);
    if |digits| >= width then digits else Zeros(width - |digits|) + digits
  }

  /** The number a digit string denotes, leading zeros included. */
  function Value(s: string): nat
    requires AllDigits(s)
  {
    if s == "" then 0 else Value(s[..|s| - 1]) * 10 + DigitValue(s[|s| - 1])
  }

  lemma {:induction false} ValueOfDigits(n: nat)
    ensures Value(Digits(n)) == n
  {
    if n >= 10 {
      ValueOfDigits(n / 10);
      assert Digits(n)[..|Digits(n)| - 1] == Digits(n / 10);
    }
  }

  lemma {:induction false} LeadingZeros(count: nat, s: string)
    requires AllDigits(s)
    ensures Value(Zeros(count) + s) == Value(s)
    decreases |s|, count
  {
    var whole := Zeros(count) + s;
    if s != "" {
      assert whole[..|whole| - 1] == Zeros(count) + s[..|s| - 1];
      LeadingZeros(count, s[..|s| - 1]);
    } else if count > 0 {
      assert whole[..|whole| - 1] == Zeros(count - 1) + s;
      LeadingZeros(count - 1, s);
    }
  }

  /** Reading back a printed number gives the number, whatever the width. */
  lemma ValueOfPadded(n: nat, width: nat)
    ensures Value(Padded(n, width)) == n
  {
    ValueOfDigits(n);
    var digits := Digits(n);
    if |digits| < width {
      LeadingZeros(width - |digits|, digits);
      assert Padded(n, width) == Zeros(width - |digits|) + digits;
    } else {
      assert Padded(n, width) == digits;
    }
  }

  lemma PaddedInjective(m: nat, n: nat, width: nat)
    requires Padded(m, width) == Padded(n, width)
    ensures m == n
  {
    ValueOfPadded(m, width);
    ValueOfPadded(n, width);
  }

  /** A common prefix cancels. */
  lemma PrefixCancels(p: string, s: string, t: string)
    requires p + s == p + t
    ensures s == t
  {
    assert (p + s)[|p|..] == s;
    assert (p + t)[|p|..] == t;
  }

  /** An unsigned integer below `bound` as Rust's `parse` reads it: an optional plus sign, then one or more digits. */
  function ParseUnsigned(s: string, bound: nat): Option<nat> {
    var digits := if s != "" && s[0] == '+' then s[1..] else s;
    if digits != "" && AllDigits(digits) && Value(digits) < bound then Some(Value(digits)) else None
  }

  /** A printed number reads back exactly when it is in range. */
  lemma ParsePadded(n: nat, width: nat, bound: nat)
    ensures ParseUnsigned(Padded(n, width), bound) == if n < bound then Some(n) else None
  {
    ValueOfPadded(n, width);
    assert IsDigit(Padded(n, width)[0]);
  }
}
