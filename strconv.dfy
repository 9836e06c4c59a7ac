/**
 * Base-10 integer conversion as Go's `strconv.Atoi` performs it on a 64-bit
 * platform: an optional `+` or `-`, then a non-empty run of ASCII digits, and
 * a value that fits a signed 64-bit `int`. `Itoa` is its inverse.
 */
module Strconv {
  import opened Wrappers

  const MinInt64: int := -0x8000_0000_0000_0000
  const MaxInt64: int := 0x7fff_ffff_ffff_ffff

  /** Go's `int` on a 64-bit platform. */
  predicate InInt64(n: int) {
    MinInt64 <= n <= MaxInt64
  }

  predicate IsDigit(c: char) {
    '0' <= c <= '9'
  }

  predicate AllDigits(s: string) {
    forall i | 0 <= i < |s| :: IsDigit(s[i])
  }

  function DigitValue(c: char): (d: nat)
    requires IsDigit(c)
    ensures d < 10
  {
    (c as int) - ('0' as int)
  }

  function DigitChar(d: nat): (c: char)
    requires d < 10
    ensures IsDigit(c) && DigitValue(c) == d
  {
    (('0' as int) + d) as char
  }

  /** The number a digit string denotes, most significant digit first. */
  function DigitsValue(s: string): nat
    requires AllDigits(s)
  {
    if s == [] then 0 else DigitsValue(s[..|s| - 1]) * 10 + DigitValue(s[|s| - 1])
  }

  /** Shortest decimal digit string of `n` (the string "0" for zero). */
  function NatDigits(n: nat): (s: string)
    ensures |s| > 0 && AllDigits(s)
  {
    if n < 10 then [DigitChar(n)] else NatDigits(n / 10) + [DigitChar(n % 10)]
  }

  /** `strconv.Atoi`: `None` on a syntax error and on a value outside the 64-bit range. */
  function Atoi(s: string): (r: Option<int>)
    ensures r.Some? ==> InInt64(r.value)
    ensures s == [] ==> r == None
    ensures r.Some? && s[0] != '-' ==> r.value >= 0
  {
    if s == [] then None
    else
      var body := if s[0] == '-' || s[0] == '+' then s[1..] else s;
      if body == [] || !AllDigits(body) then None
      else
        var mag: int := DigitsValue(body);
        var v := if s[0] == '-' then -mag else mag;
        if InInt64(v) then Some(v) else None
  }

  /** Decimal rendering of an integer, as `strconv.Itoa` writes it. */
  function Itoa(n: int): (s: string)
    ensures |s| > 0
  {
    if n < 0 then "-" + NatDigits(-n) else NatDigits(n)
  }

  lemma {:induction false} NatDigitsValue(n: nat)
    ensures DigitsValue(NatDigits(n)) == n
  {
    var s := NatDigits(n);
    if n >= 10 {
      NatDigitsValue(n / 10);
      assert s[..|s| - 1] == NatDigits(n / 10);
    }
  }

  /** Round trip: every 64-bit integer survives rendering and re-parsing. */
  lemma AtoiItoa(n: int)
    requires InInt64(n)
    ensures Atoi(Itoa(n)) == Some(n)
  {
    var s := Itoa(n);
    if n < 0 {
      NatDigitsValue(-n);
      assert s[1..] == NatDigits(-n);
    } else {
      NatDigitsValue(n);
    }
  }
}
