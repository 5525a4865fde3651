/**
 * Decimal spelling of integers as PHP's serialisation format writes them,
 * and a strict reader that accepts only that spelling.
 */
module Numerals {
  import opened Results

  predicate IsDigit(c: char)
  {
    '0' <= c <= '9'
  }

  predicate AllDigits(d: string)
  {
    forall i :: 0 <= i < |d| ==> IsDigit(d[i])
  }

  function DigitChar(n: nat): (c: char)
    requires n < 10
    ensures IsDigit(c)
  {
    ('0' as int + n) as char
  }

  function DigitValue(c: char): (n: nat)
    requires IsDigit(c)
    ensures n < 10 && DigitChar(n) == c
  {
    c as int - '0' as int
  }

  /** The decimal digits of `n`, most significant first, without leading zeros. */
  function NatToString(n: nat): (r: string)
    ensures |r| >= 1 && AllDigits(r)
    decreases n
  {
    if n < 10 then [DigitChar(n)] else NatToString(n / 10) + [DigitChar(n % 10)]
  }

  /** The number a non-empty digit string denotes. */
  function DigitsValue(d: string): nat
    requires AllDigits(d)
    decreases |d|
  {
    if d == [] then 0 else DigitsValue(d[..|d| - 1]) * 10 + DigitValue(d[|d| - 1])
  }

  lemma {:induction false} DigitsValueOfNatToString(n: nat)
    ensures DigitsValue(NatToString(n)) == n
    decreases n
  {
    if n >= 10 {
      DigitsValueOfNatToString(n / 10);
      var d := NatToString(n);
      assert d[..|d| - 1] == NatToString(n / 10);
    }
  }

  /** Decimal spelling of an integer, with a leading '-' when negative. */
  function IntToString(i: int): (r: string)
    ensures |r| >= 1
    ensures i >= 0 ==> r == NatToString(i)
  {
    if i < 0 then "-" + NatToString(-i) else NatToString(i)
  }

  /** Splits `s` into its longest all-digit prefix and the rest. */
  function DigitRun(s: string): (r: (string, string))
    ensures r.0 + r.1 == s && AllDigits(r.0)
    ensures r.1 == [] || !IsDigit(r.1[0])
    decreases |s|
  {
    if s != [] && IsDigit(s[0]) then
      var (d, rest) := DigitRun(s[1..]);
      ([s[0]] + d, rest)
    else ([], s)
  }

  /** The digit run of digits followed by a non-digit is exactly those digits. */
  lemma {:induction false} DigitRunOf(d: string, rest: string)
    requires AllDigits(d)
    requires rest == [] || !IsDigit(rest[0])
    ensures DigitRun(d + rest) == (d, rest)
    decreases |d|
  {
    var s := d + rest;
    if d != [] {
      assert s[0] == d[0] && IsDigit(s[0]);
      assert s[1..] == d[1..] + rest;
      DigitRunOf(d[1..], rest);
      assert [d[0]] + d[1..] == d;
    } else {
      assert s == rest;
    }
  }

  /**
   * Reads a natural number at the front of `s`: a run of digits in its
   * canonical spelling (no leading zeros), followed by a non-digit or the end.
   */
  function ReadNat(s: string): (r: Option<(nat, string)>)
    ensures r.Some? ==> s == NatToString(r.value.0) + r.value.1
    ensures r.Some? ==> r.value.1 == [] || !IsDigit(r.value.1[0])
  {
    var run := DigitRun(s);
    if run.0 != [] && NatToString(DigitsValue(run.0)) == run.0 then Some((DigitsValue(run.0), run.1))
    else None
  }

  /** The reader accepts what `NatToString` writes and stops at the first non-digit. */
  lemma ReadNatOf(n: nat, rest: string)
    requires rest == [] || !IsDigit(rest[0])
    ensures ReadNat(NatToString(n) + rest) == Some((n, rest))
  {
    DigitRunOf(NatToString(n), rest);
    DigitsValueOfNatToString(n);
  }

  /** A string that starts with '-' is "-" followed by the spelling of a positive number. */
  lemma MinusFront(s: string, n: nat, rest: string)
    requires n > 0 && s != [] && s[0] == '-' && s[1..] == NatToString(n) + rest
    ensures s == IntToString(0 - n) + rest
  {
    assert s == [s[0]] + s[1..];
    assert IntToString(0 - n) == "-" + NatToString(n);
  }

  /**
   * Reads an integer at the front of `s`: an optional '-' and a canonical
   * run of digits; "-0" is rejected, as it is not how any integer is written.
   */
  function ReadInt(s: string): (r: Option<(int, string)>)
    ensures r.Some? ==> s == IntToString(r.value.0) + r.value.1
    ensures r.Some? ==> r.value.1 == [] || !IsDigit(r.value.1[0])
  {
    if s != [] && s[0] == '-' then
      match ReadNat(s[1..])
      case None => None
      case Some((n, rest)) =>
        if n == 0 then None
        else
          MinusFront(s, n, rest);
          Some((0 - n, rest))
    else ReadNat(s)
  }

  lemma ReadIntUnsigned(d: string, n: nat, rest: string)
    requires d != [] && IsDigit(d[0])
    requires ReadNat(d + rest) == Some((n, rest))
    ensures ReadInt(d + rest) == Some((n as int, rest))
  {
    assert (d + rest)[0] == d[0];
  }

  lemma ReadIntMinus(d: string, n: nat, rest: string)
    requires n > 0
    requires ReadNat(d + rest) == Some((n, rest))
    ensures ReadInt("-" + (d + rest)) == Some((0 - n, rest))
  {
    var s := "-" + (d + rest);
    assert s[0] == '-' && s[1..] == d + rest;
  }

  /** The reader accepts what `IntToString` writes and stops at the first non-digit. */
  lemma ReadIntOfIntToString(i: int, rest: string)
    requires rest == [] || !IsDigit(rest[0])
    ensures ReadInt(IntToString(i) + rest) == Some((i, rest))
  {
    if i < 0 {
      var d := NatToString(-i);
      ReadNatOf(-i, rest);
      ReadIntMinus(d, -i, rest);
      assert IntToString(i) + rest == "-" + (d + rest);
    } else {
      var d := NatToString(i);
      ReadNatOf(i, rest);
      ReadIntUnsigned(d, i, rest);
    }
  }
}
