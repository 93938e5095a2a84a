/**
 * Rust's `u32` text parser (`str::parse::<u32>`), the conversion the hex
 * escape branch applies to its node's text. It reads base 10: an optional
 * leading '+', then one or more ASCII digits, with overflow past u32::MAX
 * an error.
 */
module Numerals {

  datatype Option<+T> = None | Some(value: T)

  /** One past the largest u32. */
  const U32_LIMIT: nat := 0x1_0000_0000

  predicate IsDigit(c: char) {
    '0' <= c <= '9'
  }

  function DigitValue(c: char): (d: nat)
    requires IsDigit(c)
    ensures d < 10
  {
    c as int - '0' as int
  }

  predicate AllDigits(ds: string) {
    forall i :: 0 <= i < |ds| ==> IsDigit(ds[i])
  }

  function Pow10(n: nat): (p: nat)
    ensures p >= 1
  {
    if n == 0 then 1 else 10 * Pow10(n - 1)
  }

  /** The positional value of a run of decimal digits: the reference
      reading against which the parser is proved. */
  function DigitsValue(ds: string): nat
    requires AllDigits(ds)
  {
    if ds == [] then 0 else DigitValue(ds[0]) * Pow10(|ds| - 1) + DigitsValue(ds[1..])
  }

  predicate IsHexDigit(c: char) {
    IsDigit(c) || 'a' <= c <= 'f' || 'A' <= c <= 'F'
  }

  function HexDigitValue(c: char): (d: nat)
    requires IsHexDigit(c)
    ensures d < 16
  {
    if IsDigit(c) then DigitValue(c)
    else if 'a' <= c <= 'f' then c as int - 'a' as int + 10
    else c as int - 'A' as int + 10
  }

  /** The base-16 value of a run of hexadecimal digits: the reading the
      JSON5 standard gives the digits of a `\x` escape, kept for comparison
      with the base-10 reading the code applies. */
  function HexDigitsValue(ds: string): nat
    requires forall i :: 0 <= i < |ds| ==> IsHexDigit(ds[i])
  {
    if ds == [] then 0
    else HexDigitsValue(ds[..|ds| - 1]) * 16 + HexDigitValue(ds[|ds| - 1])
  }

  /** The text after an optional leading '+'. */
  function Magnitude(t: string): string {
    if |t| > 0 && t[0] == '+' then t[1..] else t
  }

  /** The texts the parser accepts up to overflow: an optional '+' followed
      by at least one digit (a '-' is a digit error for an unsigned type). */
  predicate IsU32Text(t: string) {
    |Magnitude(t)| > 0 && AllDigits(Magnitude(t))
  }

  /** The digit loop: multiply by ten, add the digit, and fail on a
      non-digit or once the running value leaves the u32 range. */
  function Accumulate(ds: string, acc: nat): Option<nat> {
    if ds == [] then Some(acc)
    else if !IsDigit(ds[0]) then None
    else
      var next := acc * 10 + DigitValue(ds[0]);
      if next >= U32_LIMIT then None else Accumulate(ds[1..], next)
  }

  /** `str::parse::<u32>`: an empty text, or a lone sign, is an error;
      otherwise one leading '+' is skipped and the digits are accumulated. */
  function ParseU32(t: string): Option<nat> {
    if |t| == 0 then None
    else if (t[0] == '+' || t[0] == '-') && |t| == 1 then None
    else Accumulate(if t[0] == '+' then t[1..] else t, 0)
  }

  lemma ShiftDigit(acc: nat, d: nat, p: nat, rest: nat)
    ensures acc * (10 * p) + (d * p + rest) == (acc * 10 + d) * p + rest
  {
  }

  lemma Grows(next: nat, p: nat, rest: nat)
    requires p >= 1
    ensures next * p + rest >= next
  {
  }

  lemma DigitsOfTail(ds: string)
    requires ds != [] && IsDigit(ds[0])
    ensures AllDigits(ds) <==> AllDigits(ds[1..])
  {
  }

  /** The digit loop computes the positional value, and fails exactly when
      a non-digit occurs or that value leaves the u32 range. */
  lemma {:induction false} AccumulateReads(ds: string, acc: nat)
    requires acc < U32_LIMIT
    ensures Accumulate(ds, acc) ==
              if AllDigits(ds) && acc * Pow10(|ds|) + DigitsValue(ds) < U32_LIMIT
              then Some(acc * Pow10(|ds|) + DigitsValue(ds))
              else None
  {
    if ds == [] {
    } else if !IsDigit(ds[0]) {
      assert !AllDigits(ds);
    } else {
      var d := DigitValue(ds[0]);
      var next := acc * 10 + d;
      var p := Pow10(|ds| - 1);
      assert Pow10(|ds|) == 10 * p;
      DigitsOfTail(ds);
      if AllDigits(ds) {
        var rest := DigitsValue(ds[1..]);
        assert DigitsValue(ds) == d * p + rest;
        ShiftDigit(acc, d, p, rest);
        assert acc * Pow10(|ds|) + DigitsValue(ds) == next * p + rest;
        Grows(next, p, rest);
      }
      if next < U32_LIMIT {
        AccumulateReads(ds[1..], next);
      }
    }
  }

  /** The parser accepts exactly the u32 texts whose value fits, and then
      yields that value. */
  lemma ParseU32Reads(t: string)
    ensures ParseU32(t) ==
              if IsU32Text(t) && DigitsValue(Magnitude(t)) < U32_LIMIT
              then Some(DigitsValue(Magnitude(t)))
              else None
  {
    if |t| > 0 && !((t[0] == '+' || t[0] == '-') && |t| == 1) {
      var ds := if t[0] == '+' then t[1..] else t;
      assert ds == Magnitude(t);
      AccumulateReads(ds, 0);
      assert Accumulate(ds, 0) != Some(0) || |ds| > 0;
    }
  }

  /** A successful parse is always a u32. */
  lemma ParseU32Bounded(t: string)
    ensures ParseU32(t).Some? ==> ParseU32(t).value < U32_LIMIT
  {
    ParseU32Reads(t);
  }
}
