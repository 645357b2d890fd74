/** Decimal rendering of unsigned integers, as Rust's `{}` formatter prints
    a `u8` or a `u32`: the shortest run of ASCII digits, "0" for zero, no sign,
    no padding. The parser is its partner: it reads a digit run back. */
module Decimal {

  predicate IsDigit(c: char) {
    '0' <= c <= '9'
  }

  predicate AllDigits(s: string) {
    forall i :: 0 <= i < |s| ==> IsDigit(s[i])
  }

  /** A digit string as the formatter produces it: non-empty, and without a
      leading zero unless it is the single digit "0". */
  predicate Canonical(s: string) {
    |s| >= 1 && AllDigits(s) && (|s| > 1 ==> s[0] != '0')
  }

  function DigitChar(d: nat): (c: char)
    requires d < 10
    ensures IsDigit(c) && DigitValue(c) == d
  {
    (d + '0' as int) as char
  }

  function DigitValue(c: char): (d: nat)
    requires IsDigit(c)
    ensures d < 10
  {
    c as int - '0' as int
  }

  /** The decimal text of `n`. */
  function Show(n: nat): (s: string)
    ensures Canonical(s)
    ensures n < 10 <==> |s| == 1
  {
    if n < 10 then [DigitChar(n)] else Show(n / 10) + [DigitChar(n % 10)]
  }

  /** The number a digit string denotes (most significant digit first). */
  function Value(s: string): nat
    requires AllDigits(s)
  {
    if s == [] then 0 else Value(s[..|s| - 1]) * 10 + DigitValue(s[|s| - 1])
  }

  lemma {:induction false} ValueOfShow(n: nat)
    ensures Value(Show(n)) == n
  {
    if n >= 10 {
      var s := Show(n);
      assert s[..|s| - 1] == Show(n / 10);
      ValueOfShow(n / 10);
    }
  }

  lemma ShowInjective(m: nat, n: nat)
    ensures Show(m) == Show(n) <==> m == n
  {
    if Show(m) == Show(n) {
      ValueOfShow(m);
      ValueOfShow(n);
    }
  }

  lemma {:induction false} CanonicalValuePositive(s: string)
    requires Canonical(s) && s[0] != '0'
    ensures Value(s) >= 1
  {
    if |s| > 1 {
      CanonicalValuePositive(s[..|s| - 1]);
    }
  }

  /** Every canonical digit string is the text of its own value, so Show is a
      bijection between the naturals and the canonical strings. */
  lemma {:induction false} ShowOfValue(s: string)
    requires Canonical(s)
    ensures Show(Value(s)) == s
  {
    if |s| > 1 {
      var init := s[..|s| - 1];
      CanonicalValuePositive(init);
      ShowOfValue(init);
      assert Value(s) / 10 == Value(init) && Value(s) % 10 == DigitValue(s[|s| - 1]);
      assert s == init + [s[|s| - 1]];
    }
  }

  /** Splits `s` into its longest digit prefix and the remainder. */
  function SplitDigits(s: string): (r: (string, string))
    ensures AllDigits(r.0) && r.0 + r.1 == s
    ensures r.1 == [] || !IsDigit(r.1[0])
  {
    if s == [] || !IsDigit(s[0]) then ([], s)
    else
      var tail := SplitDigits(s[1..]);
      ([s[0]] + tail.0, tail.1)
  }

  /** A number printed in front of a non-digit is read back whole. */
  lemma {:induction false} SplitShown(n: nat, rest: string)
    requires rest == [] || !IsDigit(rest[0])
    ensures SplitDigits(Show(n) + rest) == (Show(n), rest)
  {
    SplitDigitRun(Show(n), rest);
  }

  lemma {:induction false} SplitDigitRun(digits: string, rest: string)
    requires AllDigits(digits)
    requires rest == [] || !IsDigit(rest[0])
    ensures SplitDigits(digits + rest) == (digits, rest)
  {
    if digits != [] {
      var s := digits + rest;
      assert s[0] == digits[0] && s[1..] == digits[1..] + rest;
      SplitDigitRun(digits[1..], rest);
      assert [digits[0]] + digits[1..] == digits;
    } else {
      assert digits + rest == rest;
    }
  }
}
