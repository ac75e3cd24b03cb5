/** Digit sequences read as numbers, most significant digit first. */
module Radix {

  function Pow(base: nat, n: nat): nat {
    if n == 0 then 1 else Pow(base, n - 1) * base
  }

  /** Every element is a digit of the given base. */
  predicate AreDigits(base: nat, d: seq<nat>) {
    forall i :: 0 <= i < |d| ==> d[i] < base
  }

  /** The number a digit sequence denotes. */
  function Value(base: nat, d: seq<nat>): nat {
    if d == [] then 0 else Value(base, d[..|d| - 1]) * base + d[|d| - 1]
  }

  /** The n lowest digits of v. */
  function Digits(base: nat, v: nat, n: nat): (d: seq<nat>)
    requires base > 0
    ensures |d| == n
    decreases n
  {
    if n == 0 then [] else Digits(base, Quotient(v, base), n - 1) + [Remainder(v, base)]
  }

  /** Division by repeated subtraction: DivModMeaning says it is the built-in one. */
  function Quotient(v: nat, base: nat): nat
    requires base > 0
  {
    if v < base then 0 else Quotient(v - base, base) + 1
  }

  function Remainder(v: nat, base: nat): (r: nat)
    requires base > 0
    ensures r < base
  {
    if v < base then v else Remainder(v - base, base)
  }

  // ----- the arithmetic, one fact at a time

  lemma Below(a: nat, b: nat, base: nat)
    requires a < b
    ensures a * base + base <= b * base
  {
    var d := b - a - 1;
    assert b * base == (a + 1 + d) * base == a * base + base + d * base;
  }

  /** Quotient and remainder of an integer are the only ones that fit. */
  lemma ModUnique(x: int, m: nat, q: int, r: int)
    requires 0 <= r < m && x == q * m + r
    ensures x % m == r && x / m == q
  {
    var q' := x / m;
    if q < q' {
      BelowInt(q, q', m);
    } else if q' < q {
      BelowInt(q', q, m);
    }
  }

  lemma BelowInt(a: int, b: int, m: nat)
    requires a < b
    ensures a * m + m <= b * m
  {
    Below(0, b - a, m);
    assert b * m == a * m + (b - a) * m;
  }

  lemma {:induction false} Division(v: nat, base: nat)
    requires base > 0
    ensures v == Quotient(v, base) * base + Remainder(v, base)
  {
    if v >= base {
      Division(v - base, base);
    }
  }

  lemma DivModUnique(base: nat, q: nat, r: nat)
    requires r < base
    ensures Quotient(q * base + r, base) == q && Remainder(q * base + r, base) == r
  {
    var v := q * base + r;
    var q' := Quotient(v, base);
    Division(v, base);
    if q < q' {
      Below(q, q', base);
    } else if q' < q {
      Below(q', q, base);
    }
  }

  lemma DivModMeaning(v: nat, base: nat)
    requires base > 0
    ensures Quotient(v, base) == v / base && Remainder(v, base) == v % base
  {
    var q, r := v / base, v % base;
    assert v == q * base + r;
    DivModUnique(base, q, r);
  }

  lemma QuotientBelow(v: nat, base: nat, p: nat)
    requires base > 0 && v < p * base
    ensures Quotient(v, base) < p
  {
    var q := Quotient(v, base);
    Division(v, base);
    if p < q {
      Below(p, q, base);
    }
  }

  // ----- digits and values determine each other

  lemma ValueAppend(base: nat, d: seq<nat>, x: nat)
    ensures Value(base, d + [x]) == Value(base, d) * base + x
  {
    assert (d + [x])[..|d|] == d;
  }

  lemma {:induction false} ValueBound(base: nat, d: seq<nat>)
    requires AreDigits(base, d)
    ensures Value(base, d) < Pow(base, |d|)
  {
    if d != [] {
      var init := d[..|d| - 1];
      ValueBound(base, init);
      Below(Value(base, init), Pow(base, |init|), base);
    }
  }

  lemma {:induction false} DigitsAreDigits(base: nat, v: nat, n: nat)
    requires base > 0
    ensures AreDigits(base, Digits(base, v, n))
    decreases n
  {
    if n > 0 {
      DigitsAreDigits(base, Quotient(v, base), n - 1);
    }
  }

  lemma {:induction false} DigitsOfValue(base: nat, d: seq<nat>)
    requires base > 0 && AreDigits(base, d)
    ensures Digits(base, Value(base, d), |d|) == d
  {
    if d != [] {
      var init := d[..|d| - 1];
      DigitsOfValue(base, init);
      DivModUnique(base, Value(base, init), d[|d| - 1]);
    }
  }

  lemma {:induction false} ValueOfDigits(base: nat, v: nat, n: nat)
    requires base > 0 && v < Pow(base, n)
    ensures Value(base, Digits(base, v, n)) == v
    decreases n
  {
    if n > 0 {
      QuotientBelow(v, base, Pow(base, n - 1));
      ValueOfDigits(base, Quotient(v, base), n - 1);
      Division(v, base);
      ValueAppend(base, Digits(base, Quotient(v, base), n - 1), Remainder(v, base));
    }
  }

  /** Two digit sequences of one length are equal as soon as they denote the same number. */
  lemma ValueInjective(base: nat, d: seq<nat>, e: seq<nat>)
    requires base > 0 && AreDigits(base, d) && AreDigits(base, e)
    requires |d| == |e| && Value(base, d) == Value(base, e)
    ensures d == e
  {
    DigitsOfValue(base, d);
    DigitsOfValue(base, e);
  }

  /** A right shift by k digits. */
  function ShiftRight(base: nat, v: nat, k: nat): nat
    requires base > 0
    decreases k
  {
    if k == 0 then v else ShiftRight(base, Quotient(v, base), k - 1)
  }

  /** The digit with k digits to its right is the one a shift by k digits exposes. */
  lemma {:induction false} DigitAt(base: nat, v: nat, n: nat, k: nat)
    requires base > 0 && k < n
    ensures Digits(base, v, n)[n - 1 - k] == Remainder(ShiftRight(base, v, k), base)
    decreases k
  {
    if k > 0 {
      DigitAt(base, Quotient(v, base), n - 1, k - 1);
    }
  }
}
