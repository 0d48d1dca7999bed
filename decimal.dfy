/**
 * The decimal rendering of an integer, as Rust's `format!("{}", n)` writes
 * an `i32`: an optional leading '-', then the digits of the magnitude with
 * no leading zero (zero itself is "0").  A parser is defined beside it so
 * that the rendering can be shown to lose no information.
 */
module Decimal {

  predicate IsDigit(c: char) {
    '0' <= c <= '9'
  }

  /** True when every character of `s` is a decimal digit. */
  predicate AllDigits(s: string) {
    forall i :: 0 <= i < |s| ==> IsDigit(s[i])
  }

  /** The character of the digit `d`. */
  function DigitChar(d: nat): char
    requires d < 10
  {
    ('0' as int + d) as char
  }

  /** The value of the digit character `c`. */
  function DigitValue(c: char): nat
    requires IsDigit(c)
  {
    c as int - '0' as int
  }

  /** The digits of `n`, most significant first, with no leading zero. */
  function Digits(n: nat): (s: string)
    ensures |s| >= 1
    ensures AllDigits(s)
    ensures s[0] == '0' <==> n == 0
    decreases n
  {
    if n < 10 then [DigitChar(n)] else Digits(n / 10) + [DigitChar(n % 10)]
  }

  /** How `format!("{}", n)` renders an integer: a '-' for negatives, then the digits of |n|. */
  function Render(n: int): (s: string)
    ensures |s| >= 1
    ensures s[0] == '-' <==> n < 0
    ensures AllDigits(if n < 0 then s[1..] else s)
  {
    if n < 0 then "-" + Digits(-n) else Digits(n)
  }

  /** The number a string of digits denotes. */
  function DigitsValue(s: string): nat
    requires AllDigits(s)
  {
    if s == [] then 0 else DigitsValue(s[..|s| - 1]) * 10 + DigitValue(s[|s| - 1])
  }

  /** True when `s` is an optional '-' followed by digits. */
  predicate WellFormed(s: string) {
    |s| >= 1 && AllDigits(if s[0] == '-' then s[1..] else s)
  }

  /** The integer a well-formed decimal string denotes. */
  function Parse(s: string): int
    requires WellFormed(s)
  {
    if s[0] == '-' then -(DigitsValue(s[1..]) as int) else DigitsValue(s)
  }

  lemma {:induction false} DigitsRoundTrip(n: nat)
    ensures DigitsValue(Digits(n)) == n
    decreases n
  {
    if n >= 10 {
      var s := Digits(n);
      DigitsRoundTrip(n / 10);
      assert s[..|s| - 1] == Digits(n / 10);
    }
  }

  /** Rendering is undone by parsing, for every integer. */
  lemma RenderRoundTrip(n: int)
    ensures WellFormed(Render(n))
    ensures Parse(Render(n)) == n
  {
    if n < 0 {
      assert Render(n)[1..] == Digits(-n);
      DigitsRoundTrip(-n);
    } else {
      assert Render(n)[0] != '-';
      DigitsRoundTrip(n);
    }
  }

  /** Distinct integers are rendered as distinct strings. */
  lemma RenderInjective(a: int, b: int)
    ensures Render(a) == Render(b) <==> a == b
  {
    RenderRoundTrip(a);
    RenderRoundTrip(b);
  }
}
