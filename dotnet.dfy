/** The .NET integer semantics the repository and the time helpers rely on: the widths of
    `int` and `long`, C#'s truncating `/` and `%`, and `ToString()` / `Parse` of integers. */
module DotNet {
  import opened Outcomes

  /** System.Int32 (`int`). */
  type Int32 = x: int | -0x8000_0000 <= x < 0x8000_0000

  /** System.Int64 (`long`). */
  type Int64 = x: int | -0x8000_0000_0000_0000 <= x < 0x8000_0000_0000_0000

  predicate IsInt32(x: int) {
    -0x8000_0000 <= x < 0x8000_0000
  }

  predicate IsInt64(x: int) {
    -0x8000_0000_0000_0000 <= x < 0x8000_0000_0000_0000
  }

  function Abs(x: int): nat {
    if x < 0 then -x else x
  }

  /** C#'s `a / b`: the quotient rounded toward zero. */
  function Quotient(a: int, b: int): (q: int)
    requires b != 0
    ensures b > 0 && a >= 0 ==> q == a / b
    ensures b > 0 && a < 0 ==> q == -((-a) / b)
  {
    var q := Abs(a) / Abs(b);
    if (a < 0) != (b < 0) then -q else q
  }

  /** TimeSpan.TicksPerMillisecond: a tick is 100 nanoseconds. */
  const TicksPerMillisecond: int := 10000

  /** C#'s unchecked `-x` on a `long`: two's-complement negation, which leaves the minimum
      value unchanged. */
  function Negate64(x: Int64): (r: Int64)
    ensures (x + r) % 0x1_0000_0000_0000_0000 == 0
    ensures r == x || r + x == 0
  {
    if x == -0x8000_0000_0000_0000 then x else -x
  }

  /** C#'s `a % b`: the remainder takes the sign of the dividend. */
  function Remainder(a: int, b: int): (r: int)
    requires b != 0
    ensures Abs(r) < Abs(b)
    ensures a >= 0 ==> r == a % Abs(b)
    ensures a < 0 ==> r <= 0
  {
    var r := Abs(a) % Abs(b);
    if a < 0 then -r else r
  }

  // ----- decimal text -----

  predicate IsDigit(c: char) {
    '0' <= c <= '9'
  }

  predicate AllDigits(s: string) {
    forall i :: 0 <= i < |s| ==> IsDigit(s[i])
  }

  /** The characters a formatted integer can contain. */
  predicate IsNumeral(c: char) {
    IsDigit(c) || c == '-'
  }

  function DigitChar(d: int): (c: char)
    requires 0 <= d < 10
    ensures IsDigit(c)
  {
    (d + 48) as char
  }

  function DigitValue(c: char): (d: int)
    requires IsDigit(c)
    ensures 0 <= d < 10
  {
    c as int - 48
  }

  /** `n.ToString()` for n >= 0: the shortest decimal numeral of n. */
  function NatToString(n: nat): (s: string)
    ensures |s| >= 1 && AllDigits(s)
    ensures n > 0 ==> s[0] != '0'
    ensures n < 10 <==> |s| == 1
  {
    if n < 10 then [DigitChar(n)] else NatToString(n / 10) + [DigitChar(n % 10)]
  }

  /** `n.ToString()` for any integer: a minus sign before the numeral of |n| when n < 0. */
  function IntToString(n: int): (s: string)
    ensures |s| >= 1
    ensures forall i :: 0 <= i < |s| ==> IsNumeral(s[i])
    ensures (s[0] == '-') <==> n < 0
  {
    if n < 0 then "-" + NatToString(-n) else NatToString(n)
  }

  /** The value of a non-empty string of decimal digits. */
  function ParseNat(s: string): nat
    requires |s| >= 1 && AllDigits(s)
  {
    if |s| == 1 then DigitValue(s[0])
    else 10 * ParseNat(s[..|s| - 1]) + DigitValue(s[|s| - 1])
  }

  /** Integer parsing of an optional minus sign followed by decimal digits; anything else is
      not a number. */
  function ParseInteger(s: string): Option<int> {
    if |s| >= 1 && AllDigits(s) then Some(ParseNat(s))
    else if |s| >= 2 && s[0] == '-' && AllDigits(s[1..]) then Some(0 - ParseNat(s[1..]))
    else None
  }

  lemma {:induction false} ParseNatToString(n: nat)
    ensures ParseNat(NatToString(n)) == n
  {
    if n >= 10 {
      var s := NatToString(n);
      assert s[..|s| - 1] == NatToString(n / 10);
      ParseNatToString(n / 10);
    }
  }

  /** Parsing undoes formatting, for every integer. */
  lemma ParseIntToString(n: int)
    ensures ParseInteger(IntToString(n)) == Some(n)
  {
    if n < 0 {
      var s := IntToString(n);
      assert s[1..] == NatToString(-n);
      ParseNatToString(-n);
    } else {
      ParseNatToString(n);
    }
  }

  /** Formatting is injective: two integers share a decimal text only when they are equal. */
  lemma IntToStringInjective(a: int, b: int)
    ensures IntToString(a) == IntToString(b) <==> a == b
  {
    ParseIntToString(a);
    ParseIntToString(b);
  }

  /** `p` is a prefix of `s` (the glob pattern `p*` matches `s`). */
  predicate IsPrefix(p: string, s: string) {
    |p| <= |s| && s[..|p|] == p
  }
}
