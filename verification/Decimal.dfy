/** Decimal text of integers, as an output stream writes it. */
module Decimal {
  import opened Octets
  import opened Radix

  const MINUS: Byte := 45

  function DigitChar(d: nat): Byte
    requires d < 10
  {
    (48 + d) as Byte
  }

  predicate IsDigit(c: Byte) { 48 <= c <= 57 }

  /** The digits of n without leading zeros. */
  function DigitsOf(n: nat): (d: seq<nat>)
    ensures |d| > 0 && AreDigits(10, d)
    ensures Value(10, d) == n
  {
    if n < 10 then [n]
    else
      ValueAppend(10, DigitsOf(n / 10), n % 10);
      DigitsOf(n / 10) + [n % 10]
  }

  function DigitText(d: seq<nat>): (t: Bytes)
    requires AreDigits(10, d)
    ensures |t| == |d| && forall i :: 0 <= i < |t| ==> IsDigit(t[i])
  {
    seq(|d|, i requires 0 <= i < |d| => DigitChar(d[i]))
  }

  /** The digits a text of digits spells. */
  function TextDigits(t: Bytes): (d: seq<nat>)
    requires forall i :: 0 <= i < |t| ==> IsDigit(t[i])
    ensures |d| == |t| && AreDigits(10, d)
  {
    seq(|t|, i requires 0 <= i < |t| => DigitValue(t[i]))
  }

  function DigitValue(c: Byte): (d: nat)
    requires IsDigit(c)
    ensures d < 10
  {
    c as nat - 48
  }

  lemma TextOfDigits(d: seq<nat>)
    requires AreDigits(10, d)
    ensures TextDigits(DigitText(d)) == d
  {
  }

  /** The text of an integer. */
  function Text(n: int): Bytes {
    if n < 0 then [MINUS] + DigitText(DigitsOf(-n)) else DigitText(DigitsOf(n))
  }

  // ----- zero padding

  function Noughts(k: nat): (z: seq<nat>)
    ensures |z| == k && AreDigits(10, z)
  {
    seq(k, _ => 0)
  }

  lemma {:induction false} LeadingZeros(k: nat, d: seq<nat>)
    ensures Value(10, Noughts(k) + d) == Value(10, d)
  {
    if d == [] {
      ZerosWorthNothing(k);
      assert Noughts(k) + d == Noughts(k);
    } else {
      var z := Noughts(k) + d;
      assert z[..|z| - 1] == Noughts(k) + d[..|d| - 1];
      LeadingZeros(k, d[..|d| - 1]);
    }
  }

  lemma {:induction false} ZerosWorthNothing(k: nat)
    ensures Value(10, Noughts(k)) == 0
  {
    if k > 0 {
      assert Noughts(k)[..k - 1] == Noughts(k - 1);
      ZerosWorthNothing(k - 1);
    }
  }

  /** At least `width` digits, filled with zeros on the left. */
  function Padded(n: nat, width: nat): (d: seq<nat>)
    ensures AreDigits(10, d) && |d| >= width
    ensures Value(10, d) == n
  {
    var d := DigitsOf(n);
    if |d| >= width then d
    else
      LeadingZeros(width - |d|, d);
      Noughts(width - |d|) + d
  }

  /** Padding adds zeros only up to the width, and the digits themselves start with none. */
  lemma {:induction false} NoLeadingZero(n: nat)
    ensures n > 0 ==> DigitsOf(n)[0] != 0
    ensures forall width: nat :: |Padded(n, width)| > width > 0 ==> Padded(n, width)[0] != 0
  {
    if n >= 10 {
      NoLeadingZero(n / 10);
    }
  }
}
