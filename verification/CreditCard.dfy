/** The Luhn check and the number stage of src/payment/CreditCard.cpp (ISO/IEC 7812-1). */
module CreditCard {

  predicate IsDigit(c: char) { '0' <= c <= '9' }

  function DigitOf(c: char): (d: nat)
    requires IsDigit(c)
    ensures d < 10
  {
    c as int - '0' as int
  }

  predicate AllDigits(s: string) {
    forall i :: 0 <= i < |s| ==> IsDigit(s[i])
  }

  /** A digit's contribution: doubled digits count with their digit sum. */
  function Worth(d: nat, doubled: bool): nat
    requires d < 10
  {
    if !doubled then d else if 2 * d > 9 then 2 * d - 9 else 2 * d
  }

  /** Is the character with so many characters to its right doubled? */
  predicate Doubled(toTheRight: nat) { toTheRight % 2 == 1 }

  /** The position-weighted sum: every second digit, counted from the right, is doubled. */
  function Sum(s: string): (n: nat)
    requires AllDigits(s)
    ensures n <= 9 * |s|  // below 238609295 digits the source's int cannot overflow
  {
    if s == [] then 0 else Worth(DigitOf(s[0]), Doubled(|s| - 1)) + Sum(s[1..])
  }

  predicate Accepts(s: string) {
    s != [] && AllDigits(s) && Sum(s) % 10 == 0
  }

  function WorthAt(s: string, k: nat): nat
    requires AllDigits(s) && k < |s|
  {
    Worth(DigitOf(s[k]), Doubled(|s| - 1 - k))
  }

  lemma SumStep(s: string)
    requires AllDigits(s) && s != []
    ensures Sum(s) == WorthAt(s, 0) + Sum(s[1..])
  {
    hide Worth, Doubled;
  }

  lemma SumOfNothing()
    ensures Sum([]) == 0
  {
  }

  /**
   Two more digits on the right leave the places of all others as they are: the last counts as it is,
   the one before it with the digits of its double.
   */
  lemma {:induction false} SumOfTwoMore(s: string, x: char, y: char)
    requires AllDigits(s) && IsDigit(x) && IsDigit(y)
    ensures AllDigits(s + [x, y])
    ensures var twice := 2 * (x as int - 48);
            Sum(s + [x, y]) == Sum(s) + (twice / 10 + twice % 10) + (y as int - 48)
  {
    hide Sum, Worth, Doubled;
    var t := s + [x, y];
    SumStep(t);
    if s == [] {
      SumOfOne(y);
      SumOfNothing();
      assert t[1..] == [y] && t[0] == x;
      WorthFirst(x, y);
    } else {
      SumStep(s);
      SumOfTwoMore(s[1..], x, y);
      assert t[1..] == s[1..] + [x, y] && t[0] == s[0];
      SamePlace(|s| - 1);
    }
  }

  lemma WorthFirst(x: char, y: char)
    requires IsDigit(x) && IsDigit(y)
    ensures var twice := 2 * (x as int - 48);
            AllDigits([x, y]) && WorthAt([x, y], 0) == twice / 10 + twice % 10
  {
  }

  lemma SamePlace(n: nat)
    ensures Doubled(n + 2) == Doubled(n)
  {
  }

  lemma SumOfOne(y: char)
    requires IsDigit(y)
    ensures AllDigits([y]) && Sum([y]) == y as int - 48
  {
    assert [y][1..] == [];
  }

  lemma NextPair(s: string, x: char, y: char, t: string, sum: nat)
    requires AllDigits(s) && Sum(s) == sum && IsDigit(x) && IsDigit(y) && t == s + [x, y]
    ensures AllDigits(t)
    ensures var twice := 2 * (x as int - 48);
            Sum(t) == sum + (twice / 10 + twice % 10) + (y as int - 48)
  {
    SumOfTwoMore(s, x, y);
  }

  /** The textbook example, and a wrong check digit behind the same ten digits. */
  lemma KnownNumbers()
    ensures Accepts("79927398713") && !Accepts("79927398710")
  {
    hide Sum, AllDigits;
    SumOfOne('7');
    NextPair("7", '9', '9', "799", 7);
    NextPair("799", '2', '7', "79927", 25);
    NextPair("79927", '3', '9', "7992739", 36);
    NextPair("7992739", '8', '7', "799273987", 51);
    NextPair("799273987", '1', '3', "79927398713", 65);
    NextPair("799273987", '1', '0', "79927398710", 65);
  }

  /** A size cast to int. */
  function IntSize(n: nat): int {
    var u := n % 0x1_0000_0000;
    if u < 0x8000_0000 then u else u - 0x1_0000_0000
  }

  /** The cast keeps the size modulo 2^32 and gives a number of the int range. */
  lemma IntSizeMeaning(n: nat)
    ensures -0x8000_0000 <= IntSize(n) < 0x8000_0000 && (n - IntSize(n)) % 0x1_0000_0000 == 0
  {
  }

  /** The characters the loop reaches: a negative size skips it. */
  function Examined(s: string): (e: string)
    ensures e <= s && |e| == if IntSize(|s|) < 0 then 0 else IntSize(|s|)
    ensures |s| < 0x8000_0000 ==> e == s
  {
    if IntSize(|s|) < 0 then [] else s[..IntSize(|s|)]
  }

  /** What the loop says: the check of the characters it reaches. */
  predicate Says(s: string) {
    s != [] && AllDigits(Examined(s)) && Sum(Examined(s)) % 10 == 0
  }

  lemma {:induction false} SumOfNoughts(n: nat)
    ensures Sum(seq(n, _ => '0')) == 0
  {
    var s := seq(n, _ => '0');
    if n > 0 {
      assert s[1..] == seq(n - 1, _ => '0');
      SumOfNoughts(n - 1);
    }
  }

  /** Noughts as far as the loop reaches, and behind them no digits. */
  function Overlooked(n: nat): (s: string)
    requires n >= 0x8000_0000
    ensures |s| == n
  {
    var reached := if IntSize(n) < 0 then 0 else IntSize(n);
    seq(reached, _ => '0') + seq(n - reached, _ => 'x')
  }

  lemma OverlookedAccepted(n: nat)
    requires n >= 0x8000_0000
    ensures Says(Overlooked(n)) && !Accepts(Overlooked(n))
  {
    var s := Overlooked(n);
    var reached := if IntSize(n) < 0 then 0 else IntSize(n);
    SumOfNoughts(reached);
    assert Examined(s) == seq(reached, _ => '0');
    assert s[n - 1] == 'x';
  }

  /** 2^32 characters that are no digits at all are accepted. */
  lemma CastAcceptsAnything()
    ensures var s := seq(0x1_0000_0000, _ => 'x');
            !Accepts(s) && Says(s)
  {
    var s := seq(0x1_0000_0000, _ => 'x');
    assert !IsDigit(s[0]) && Examined(s) == [];
  }

  /** The loop is the Luhn check of every text of a length exactly when the length is below 2^31. */
  lemma CastHarmlessExactly(n: nat)
    ensures (forall s: string :: |s| == n ==> (Says(s) <==> Accepts(s))) <==> n < 0x8000_0000
  {
    if n >= 0x8000_0000 {
      OverlookedAccepted(n);
      hide Says, Accepts, Overlooked;
      assert |Overlooked(n)| == n;
    }
  }

  lemma SumFrom(s: string, i: nat)
    requires i < |s| && IsDigit(s[i]) && AllDigits(s[i + 1..])
    ensures AllDigits(s[i..])
    ensures Sum(s[i..]) == Worth(DigitOf(s[i]), Doubled(|s| - 1 - i)) + Sum(s[i + 1..])
  {
    hide Worth, Doubled;
    assert s[i..][1..] == s[i + 1..];
  }

  method ValidateLuhn(cardNumber: string) returns (ok: bool)
    ensures ok <==> Says(cardNumber)
    ensures |cardNumber| < 0x8000_0000 ==> (ok <==> Accepts(cardNumber))
  {
    hide IntSize, Examined, Sum;
    if cardNumber == [] {
      return false;
    }
    var sum := 0;
    var alternate := false;
    SumOfNothing();
    var i := IntSize(|cardNumber|) - 1;
    ghost var examined := Examined(cardNumber);
    while i >= 0
      invariant i < |examined| && (i >= -1 || examined == [])
      invariant AllDigits(examined[if i < 0 then 0 else i + 1..])
      invariant i >= 0 ==> alternate == Doubled(|examined| - 1 - i)
      invariant sum == Sum(examined[if i < 0 then 0 else i + 1..])
    {
      if !IsDigit(cardNumber[i]) {
        return false;
      }
      assert examined[i] == cardNumber[i];
      SumFrom(examined, i);
      var digit := DigitOf(cardNumber[i]);
      if alternate {
        digit := digit * 2;
        if digit > 9 {
          digit := digit - 9;
        }
      }
      sum := sum + digit;
      alternate := !alternate;
      i := i - 1;
    }
    assert examined[0..] == examined;
    return sum % 10 == 0;
  }

  // ----- error detection

  lemma WorthBehind(s: string, k: nat)
    requires AllDigits(s) && 0 < k < |s|
    ensures WorthAt(s, k) == WorthAt(s[1..], k - 1)
  {
    hide Worth, Doubled;
    assert |s| - 1 - k == |s[1..]| - 1 - (k - 1);
  }

  /** Replacing one character changes the sum by the difference of the two contributions. */
  lemma {:induction false} SumAfterChange(s: string, k: nat, c: char)
    requires AllDigits(s) && k < |s| && IsDigit(c)
    ensures AllDigits(s[k := c])
    ensures Sum(s[k := c]) - Sum(s) == WorthAt(s[k := c], k) - WorthAt(s, k)
  {
    hide Sum, Worth, Doubled;
    var t := s[k := c];
    SumStep(s);
    SumStep(t);
    if k == 0 {
      assert t[1..] == s[1..];
    } else {
      assert t[1..] == s[1..][k - 1 := c];
      SumAfterChange(s[1..], k - 1, c);
      WorthBehind(s, k);
      WorthBehind(t, k);
      assert WorthAt(s, 0) == WorthAt(t, 0);
    }
  }

  /** Every change of one digit of an accepted number is detected. */
  lemma SingleErrorDetected(s: string, k: nat, c: char)
    requires Accepts(s) && k < |s| && IsDigit(c) && c != s[k]
    ensures !Accepts(s[k := c])
  {
    SumAfterChange(s, k, c);
    WorthDistinct(DigitOf(s[k]), DigitOf(c), Doubled(|s| - 1 - k));
    hide Sum, Worth;
    SameRemainder(Sum(s[k := c]), Sum(s));
  }

  lemma WorthDistinct(p: nat, q: nat, doubled: bool)
    requires p < 10 && q < 10 && p != q
    ensures (Worth(q, doubled) - Worth(p, doubled)) % 10 != 0
  {
  }

  lemma SameRemainder(x: nat, y: nat)
    ensures y % 10 == 0 ==> (x % 10 == 0 <==> (x - y) % 10 == 0)
  {
  }

  /** Replacing two adjacent characters. */
  function Replaced(s: string, k: nat, c: char, d: char): string
    requires k + 1 < |s|
  {
    s[k := c][k + 1 := d]
  }

  lemma SumAfterTwoChanges(s: string, k: nat, c: char, d: char)
    requires AllDigits(s) && k + 1 < |s| && IsDigit(c) && IsDigit(d)
    ensures AllDigits(Replaced(s, k, c, d))
    ensures var doubled := Doubled(|s| - 1 - k);
            Sum(Replaced(s, k, c, d)) - Sum(s) ==
            Worth(DigitOf(c), doubled) - Worth(DigitOf(s[k]), doubled) +
            Worth(DigitOf(d), !doubled) - Worth(DigitOf(s[k + 1]), !doubled)
  {
    hide Sum, Worth;
    SumAfterChange(s, k, c);
    SumAfterChange(s[k := c], k + 1, d);
  }

  /** A swap of two adjacent unequal digits goes undetected exactly when they are 0 and 9. */
  lemma SwapDetected(s: string, k: nat)
    requires Accepts(s) && k + 1 < |s| && s[k] != s[k + 1]
    ensures Accepts(Replaced(s, k, s[k + 1], s[k])) <==>
            (s[k] == '0' && s[k + 1] == '9') || (s[k] == '9' && s[k + 1] == '0')
  {
    hide Sum, Worth, Replaced, Doubled;
    SumAfterTwoChanges(s, k, s[k + 1], s[k]);
    SwapArithmetic(DigitOf(s[k]), DigitOf(s[k + 1]), Doubled(|s| - 1 - k));
    SameRemainder(Sum(Replaced(s, k, s[k + 1], s[k])), Sum(s));
    Length(s, k, s[k + 1], s[k]);
  }

  lemma Length(s: string, k: nat, c: char, d: char)
    requires k + 1 < |s|
    ensures |Replaced(s, k, c, d)| == |s|
  {
  }

  /** How much more a digit counts when it is doubled. */
  lemma Gain(d: nat)
    requires d < 10
    ensures Worth(d, true) - Worth(d, false) == if d < 5 then d else d - 9
  {
  }

  lemma SwapArithmetic(p: nat, q: nat, doubled: bool)
    requires p < 10 && q < 10 && p != q
    ensures (Worth(q, doubled) - Worth(p, doubled) + Worth(p, !doubled) - Worth(q, !doubled)) % 10 == 0 <==>
            (p == 0 && q == 9) || (p == 9 && q == 0)
  {
    Gain(p);
    Gain(q);
    hide Worth;
    var gain: int := (if q < 5 then q else q - 9) - (if p < 5 then p else p - 9);
    assert -8 <= gain <= 8;
  }

  /** The pairs 2 and 5, 3 and 6, 4 and 7. */
  predicate UndetectedTwins(c: char, d: char) {
    '2' <= c <= '7' && '2' <= d <= '7' && (c as int - d as int == 3 || d as int - c as int == 3)
  }

  /** Writing cc for two equal adjacent digits goes undetected exactly for three pairs. */
  lemma TwinErrorDetected(s: string, k: nat, c: char)
    requires Accepts(s) && k + 1 < |s| && s[k] == s[k + 1] && IsDigit(c) && c != s[k]
    ensures Accepts(Replaced(s, k, c, c)) <==> UndetectedTwins(s[k], c)
  {
    hide Sum, Worth, Replaced, Doubled;
    SumAfterTwoChanges(s, k, c, c);
    TwinArithmetic(DigitOf(s[k]), DigitOf(c), Doubled(|s| - 1 - k));
    SameRemainder(Sum(Replaced(s, k, c, c)), Sum(s));
    Length(s, k, c, c);
  }

  lemma Triple(n: int)
    requires -9 <= n <= 9
    ensures 3 * n % 10 == 0 <==> n == 0
  {
  }

  /** A digit once plain and once doubled. */
  lemma Both(d: nat, doubled: bool)
    requires d < 10
    ensures Worth(d, doubled) + Worth(d, !doubled) == if d < 5 then 3 * d else 3 * d - 9
  {
  }

  lemma TwinArithmetic(p: nat, q: nat, doubled: bool)
    requires p < 10 && q < 10 && p != q
    ensures (Worth(q, doubled) - Worth(p, doubled) + Worth(q, !doubled) - Worth(p, !doubled)) % 10 == 0 <==>
            (p - q == 3 || q - p == 3) && 2 <= p <= 7 && 2 <= q <= 7
  {
    Both(p, doubled);
    Both(q, doubled);
    hide Worth;
    var steps: int := (if q < 5 then q else q - 3) - (if p < 5 then p else p - 3);
    Triple(steps);
  }

  /** The digit that completes a prefix. */
  function CheckDigit(p: string): (c: char)
    requires AllDigits(p)
    ensures IsDigit(c)
  {
    ('0' as int + (10 - Sum(p + ['0']) % 10) % 10) as char
  }

  /** Every digit prefix, the empty one included, is completed by exactly one digit. */
  lemma CheckDigitUnique(p: string, c: char)
    requires AllDigits(p) && IsDigit(c)
    ensures Accepts(p + [c]) <==> c == CheckDigit(p)
  {
    var z, pc := p + ['0'], p + [c];
    assert z[|p| := c] == pc;
    SumAfterChange(z, |p|, c);
    assert WorthAt(z, |p|) == 0 && WorthAt(pc, |p|) == DigitOf(c);
    hide Sum, WorthAt;
    LastDigit(Sum(z), DigitOf(c));
  }

  lemma LastDigit(sum: nat, d: nat)
    requires d < 10
    ensures (sum + d) % 10 == 0 <==> d == (10 - sum % 10) % 10
  {
  }

  // ----- cleaning

  function Clean(s: string): (d: string)
    ensures AllDigits(d)
  {
    if s == [] then [] else (if IsDigit(s[0]) then [s[0]] else []) + Clean(s[1..])
  }

  lemma {:induction false} CleanConcat(a: string, b: string)
    ensures Clean(a + b) == Clean(a) + Clean(b)
  {
    if a == [] {
      assert a + b == b;
      assert Clean([]) == [];
    } else {
      var first := if IsDigit(a[0]) then [a[0]] else [];
      CleanConcat(a[1..], b);
      assert (a + b)[0] == a[0] && (a + b)[1..] == a[1..] + b;
      assert first + (Clean(a[1..]) + Clean(b)) == first + Clean(a[1..]) + Clean(b);
    }
  }

  datatype NumberVerdict = Empty | BadLength | LuhnFailed | Acceptable

  function Verdict(number: string): NumberVerdict {
    if number == [] then Empty
    else if |Clean(number)| < 13 || |Clean(number)| > 19 then BadLength
    else if !Accepts(Clean(number)) then LuhnFailed
    else Acceptable
  }

  /** Text without digits may stand anywhere in a non-empty number. */
  lemma SeparatorsIgnored(a: string, separator: string, b: string)
    requires Clean(separator) == [] && a + b != []
    ensures Verdict(a + separator + b) == Verdict(a + b)
  {
    CleanConcat(a + separator, b);
    CleanConcat(a, separator);
    CleanConcat(a, b);
    assert Clean(a + separator + b) == Clean(a + b);
    assert |a + separator + b| >= |a + b| > 0;
  }

  lemma CleanOne(c: char)
    ensures Clean([c]) == if '0' <= c <= '9' then [c] else []
  {
    assert [c][1..] == [];
  }

  lemma {:induction false} CleanOfDigits(s: string)
    requires AllDigits(s)
    ensures Clean(s) == s
  {
    if s != [] {
      CleanOfDigits(s[1..]);
      assert s == [s[0]] + s[1..];
    }
  }

  /** Of the texts of digits, those with 13 to 19 characters are judged by their sum. */
  lemma VerdictOfDigits(s: string)
    requires AllDigits(s)
    ensures Verdict(s) == if s == [] then Empty
                          else if !(12 < |s| < 20) then BadLength
                          else if Sum(s) % 10 == 0 then Acceptable else LuhnFailed
  {
    CleanOfDigits(s);
  }

  /** Only no text at all is empty; text without a digit has a bad length. */
  lemma EmptyExactly(number: string)
    ensures Verdict(number) == Empty <==> number == []
    ensures number != [] && (forall i :: 0 <= i < |number| ==> !('0' <= number[i] <= '9')) ==>
              Verdict(number) == BadLength
  {
    if forall i :: 0 <= i < |number| ==> !('0' <= number[i] <= '9') {
      CleanOfOthers(number);
    }
  }

  lemma {:induction false} CleanOfOthers(s: string)
    requires forall i :: 0 <= i < |s| ==> !('0' <= s[i] <= '9')
    ensures Clean(s) == []
  {
    if s != [] {
      CleanOfOthers(s[1..]);
    }
  }

  lemma CleanAround(a: string, c: char, b: string)
    requires IsDigit(c)
    ensures Clean(a + [c] + b) == Clean(a) + [c] + Clean(b)
  {
    CleanConcat(a + [c], b);
    CleanConcat(a, [c]);
    CleanOne(c);
  }

  /** An acceptable number, separators and all, with one digit changed fails the Luhn check. */
  lemma VerdictSingleError(number: string, k: nat, c: char)
    requires Verdict(number) == Acceptable && k < |number| && IsDigit(number[k]) && IsDigit(c) && c != number[k]
    ensures Verdict(number[k := c]) == LuhnFailed
  {
    hide Sum, Clean;
    var a, b := number[..k], number[k + 1..];
    assert number == a + [number[k]] + b && number[k := c] == a + [c] + b;
    CleanAround(a, number[k], b);
    CleanAround(a, c, b);
    var clean := Clean(number);
    assert clean[|Clean(a)| := c] == Clean(a) + [c] + Clean(b);
    SingleErrorDetected(clean, |Clean(a)|, c);
  }

  /** The number stage of validate. */
  method ValidateNumber(number: string) returns (v: NumberVerdict)
    ensures v == Verdict(number)
  {
    if number == [] {
      return Empty;
    }
    var clean := "";
    for i := 0 to |number|
      invariant clean == Clean(number[..i])
    {
      assert number[..i + 1] == number[..i] + [number[i]];
      CleanConcat(number[..i], [number[i]]);
      if IsDigit(number[i]) {
        clean := clean + [number[i]];
      }
    }
    assert number[..|number|] == number;
    if |clean| < 13 || |clean| > 19 {
      return BadLength;
    }
    var ok := ValidateLuhn(clean);
    return if ok then Acceptable else LuhnFailed;
  }
}
