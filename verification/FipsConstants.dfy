/**
 The constants of SHA-256 and where they come from (sections 4.2.2 and 5.3.3 of FIPS 180-4):
 the first 32 bits of the fractional parts of the cube roots of the first 64 primes, and of the
 square roots of the first 8.
 */
module FipsConstants {
  import Radix

  function RoundTable0(i: nat): (k: nat)
    requires i < 16
    ensures k < 0x1_0000_0000
  {
    match i
    case 0 => 0x428a2f98
    case 1 => 0x71374491
    case 2 => 0xb5c0fbcf
    case 3 => 0xe9b5dba5
    case 4 => 0x3956c25b
    case 5 => 0x59f111f1
    case 6 => 0x923f82a4
    case 7 => 0xab1c5ed5
    case 8 => 0xd807aa98
    case 9 => 0x12835b01
    case 10 => 0x243185be
    case 11 => 0x550c7dc3
    case 12 => 0x72be5d74
    case 13 => 0x80deb1fe
    case 14 => 0x9bdc06a7
    case _ => 0xc19bf174
  }

  function RoundTable1(i: nat): (k: nat)
    requires i < 16
    ensures k < 0x1_0000_0000
  {
    match i
    case 0 => 0xe49b69c1
    case 1 => 0xefbe4786
    case 2 => 0x0fc19dc6
    case 3 => 0x240ca1cc
    case 4 => 0x2de92c6f
    case 5 => 0x4a7484aa
    case 6 => 0x5cb0a9dc
    case 7 => 0x76f988da
    case 8 => 0x983e5152
    case 9 => 0xa831c66d
    case 10 => 0xb00327c8
    case 11 => 0xbf597fc7
    case 12 => 0xc6e00bf3
    case 13 => 0xd5a79147
    case 14 => 0x06ca6351
    case _ => 0x14292967
  }

  function RoundTable2(i: nat): (k: nat)
    requires i < 16
    ensures k < 0x1_0000_0000
  {
    match i
    case 0 => 0x27b70a85
    case 1 => 0x2e1b2138
    case 2 => 0x4d2c6dfc
    case 3 => 0x53380d13
    case 4 => 0x650a7354
    case 5 => 0x766a0abb
    case 6 => 0x81c2c92e
    case 7 => 0x92722c85
    case 8 => 0xa2bfe8a1
    case 9 => 0xa81a664b
    case 10 => 0xc24b8b70
    case 11 => 0xc76c51a3
    case 12 => 0xd192e819
    case 13 => 0xd6990624
    case 14 => 0xf40e3585
    case _ => 0x106aa070
  }

  function RoundTable3(i: nat): (k: nat)
    requires i < 16
    ensures k < 0x1_0000_0000
  {
    match i
    case 0 => 0x19a4c116
    case 1 => 0x1e376c08
    case 2 => 0x2748774c
    case 3 => 0x34b0bcb5
    case 4 => 0x391c0cb3
    case 5 => 0x4ed8aa4a
    case 6 => 0x5b9cca4f
    case 7 => 0x682e6ff3
    case 8 => 0x748f82ee
    case 9 => 0x78a5636f
    case 10 => 0x84c87814
    case 11 => 0x8cc70208
    case 12 => 0x90befffa
    case 13 => 0xa4506ceb
    case 14 => 0xbef9a3f7
    case _ => 0xc67178f2
  }

  /** The constant of round t. */
  function RoundNumber(t: nat): (k: nat)
    requires t < 64
    ensures k < 0x1_0000_0000
  {
    if t < 16 then RoundTable0(t) else if t < 32 then RoundTable1(t - 16)
    else if t < 48 then RoundTable2(t - 32) else RoundTable3(t - 48)
  }

  function InitialNumber(i: nat): (k: nat)
    requires i < 8
    ensures k < 0x1_0000_0000
  {
    match i
    case 0 => 0x6a09e667
    case 1 => 0xbb67ae85
    case 2 => 0x3c6ef372
    case 3 => 0xa54ff53a
    case 4 => 0x510e527f
    case 5 => 0x9b05688c
    case 6 => 0x1f83d9ab
    case _ => 0x5be0cd19
  }

  function PrimeTable0(i: nat): nat
    requires i < 16
  {
    match i
    case 0 => 2
    case 1 => 3
    case 2 => 5
    case 3 => 7
    case 4 => 11
    case 5 => 13
    case 6 => 17
    case 7 => 19
    case 8 => 23
    case 9 => 29
    case 10 => 31
    case 11 => 37
    case 12 => 41
    case 13 => 43
    case 14 => 47
    case _ => 53
  }

  function PrimeTable1(i: nat): nat
    requires i < 16
  {
    match i
    case 0 => 59
    case 1 => 61
    case 2 => 67
    case 3 => 71
    case 4 => 73
    case 5 => 79
    case 6 => 83
    case 7 => 89
    case 8 => 97
    case 9 => 101
    case 10 => 103
    case 11 => 107
    case 12 => 109
    case 13 => 113
    case 14 => 127
    case _ => 131
  }

  function PrimeTable2(i: nat): nat
    requires i < 16
  {
    match i
    case 0 => 137
    case 1 => 139
    case 2 => 149
    case 3 => 151
    case 4 => 157
    case 5 => 163
    case 6 => 167
    case 7 => 173
    case 8 => 179
    case 9 => 181
    case 10 => 191
    case 11 => 193
    case 12 => 197
    case 13 => 199
    case 14 => 211
    case _ => 223
  }

  function PrimeTable3(i: nat): nat
    requires i < 16
  {
    match i
    case 0 => 227
    case 1 => 229
    case 2 => 233
    case 3 => 239
    case 4 => 241
    case 5 => 251
    case 6 => 257
    case 7 => 263
    case 8 => 269
    case 9 => 271
    case 10 => 277
    case 11 => 281
    case 12 => 283
    case 13 => 293
    case 14 => 307
    case _ => 311
  }

  /** The prime number with so many primes below it. */
  function Prime(t: nat): nat
    requires t < 64
  {
    if t < 16 then PrimeTable0(t) else if t < 32 then PrimeTable1(t - 16)
    else if t < 48 then PrimeTable2(t - 32) else PrimeTable3(t - 48)
  }

  // ----- the table holds the primes, all of them in order

  predicate IsPrime(p: nat) {
    p >= 2 && forall d :: 2 <= d < p ==> p % d != 0
  }

  /** One of the primes below 18 divides n and is not n. */
  predicate SmallDivisor(n: nat) {
    || (n != 2 && n % 2 == 0) || (n != 3 && n % 3 == 0) || (n != 5 && n % 5 == 0) || (n != 7 && n % 7 == 0)
    || (n != 11 && n % 11 == 0) || (n != 13 && n % 13 == 0) || (n != 17 && n % 17 == 0)
  }

  lemma Counterpart(p: nat, d: nat)
    requires 2 <= d < p && p % d == 0
    ensures p == d * (p / d) && 1 < p / d < p && p % (p / d) == 0
  {
    var e := p / d;
    assert p == d * e;
    assert e != 0 && e != 1;
    assert e < d * e;
    Radix.ModUnique(p, e, d, 0);
  }

  lemma DividesToo(p: nat, d: nat, c: nat)
    requires 0 < c && 0 < d && p % d == 0 && d % c == 0
    ensures p % c == 0
  {
    var e, f := p / d, d / c;
    assert p == f * e * c by {
      assert d == f * c && p == d * e;
    }
    Radix.ModUnique(p, c, f * e, 0);
  }

  /** A divisor below 18 has a prime divisor, which divides p as well. */
  lemma SmallEnough(p: nat, d: nat)
    requires 2 <= d <= 17 && d < p && p % d == 0
    ensures SmallDivisor(p)
  {
    var c := if d % 2 == 0 then 2 else if d % 3 == 0 then 3 else d;
    DividesToo(p, d, c);
    assert c in {2, 3, 5, 7, 11, 13, 17};
  }

  lemma BothLarge(d: nat, e: nat)
    requires d >= 18 && e >= 18
    ensures d * e >= 324
  {
    assert d * e >= 18 * e;
  }

  /** Below 18 * 18, of a divisor and its counterpart one is below 18. */
  lemma TrialDivision(p: nat)
    requires 2 <= p < 324
    ensures SmallDivisor(p) <==> !IsPrime(p)
  {
    if !SmallDivisor(p) {
      forall d | 2 <= d < p ensures p % d != 0 {
        if p % d == 0 {
          Counterpart(p, d);
          var e := p / d;
          if d <= 17 {
            SmallEnough(p, d);
          } else if e <= 17 {
            SmallEnough(p, e);
          } else {
            BothLarge(d, e);
          }
          assert false;
        }
      }
    }
  }

  /** b is free of small divisors, and every number between a and b has one; gaps in the table are at most 14. */
  predicate Next(a: nat, b: nat) {
    && a < b <= a + 14 && b < 324 && !SmallDivisor(b)
    && (a + 1 < b ==> SmallDivisor(a + 1))
    && (a + 2 < b ==> SmallDivisor(a + 2))
    && (a + 3 < b ==> SmallDivisor(a + 3))
    && (a + 4 < b ==> SmallDivisor(a + 4))
    && (a + 5 < b ==> SmallDivisor(a + 5))
    && (a + 6 < b ==> SmallDivisor(a + 6))
    && (a + 7 < b ==> SmallDivisor(a + 7))
    && (a + 8 < b ==> SmallDivisor(a + 8))
    && (a + 9 < b ==> SmallDivisor(a + 9))
    && (a + 10 < b ==> SmallDivisor(a + 10))
    && (a + 11 < b ==> SmallDivisor(a + 11))
    && (a + 12 < b ==> SmallDivisor(a + 12))
    && (a + 13 < b ==> SmallDivisor(a + 13))
  }

  lemma NextMeans(a: nat, b: nat, n: nat)
    requires Next(a, b) && a < n < b
    ensures SmallDivisor(n)
  {
    hide SmallDivisor;
  }

  predicate Follows(t: nat)
    requires t < 64
  {
    t < 63 ==> Next(Prime(t), Prime(t + 1))
  }

  lemma Gaps0()
    ensures Next(2, 3) && Next(3, 5) && Next(5, 7) && Next(7, 11)
    ensures Next(11, 13) && Next(13, 17) && Next(17, 19) && Next(19, 23)
  {
  }

  lemma Gaps8()
    ensures Next(23, 29) && Next(29, 31) && Next(31, 37) && Next(37, 41)
    ensures Next(41, 43) && Next(43, 47) && Next(47, 53) && Next(53, 59)
  {
  }

  lemma Gaps16()
    ensures Next(59, 61) && Next(61, 67) && Next(67, 71) && Next(71, 73)
    ensures Next(73, 79) && Next(79, 83) && Next(83, 89) && Next(89, 97)
  {
  }

  lemma Gaps24()
    ensures Next(97, 101) && Next(101, 103) && Next(103, 107) && Next(107, 109)
    ensures Next(109, 113) && Next(113, 127) && Next(127, 131) && Next(131, 137)
  {
  }

  lemma Gaps32()
    ensures Next(137, 139) && Next(139, 149) && Next(149, 151) && Next(151, 157)
    ensures Next(157, 163) && Next(163, 167) && Next(167, 173) && Next(173, 179)
  {
  }

  lemma Gaps40()
    ensures Next(179, 181) && Next(181, 191) && Next(191, 193) && Next(193, 197)
    ensures Next(197, 199) && Next(199, 211) && Next(211, 223) && Next(223, 227)
  {
  }

  lemma Gaps48()
    ensures Next(227, 229) && Next(229, 233) && Next(233, 239) && Next(239, 241)
    ensures Next(241, 251) && Next(251, 257) && Next(257, 263) && Next(263, 269)
  {
  }

  lemma Gaps56()
    ensures Next(269, 271) && Next(271, 277) && Next(277, 281) && Next(281, 283)
    ensures Next(283, 293) && Next(293, 307) && Next(307, 311)
  {
  }

  lemma Primes0()
    ensures Follows(0) && Follows(1) && Follows(2) && Follows(3)
    ensures Follows(4) && Follows(5) && Follows(6) && Follows(7)
  {
    hide Next, SmallDivisor;
    Gaps0();
  }

  lemma Primes8()
    ensures Follows(8) && Follows(9) && Follows(10) && Follows(11)
    ensures Follows(12) && Follows(13) && Follows(14) && Follows(15)
  {
    hide Next, SmallDivisor;
    Gaps8();
  }

  lemma Primes16()
    ensures Follows(16) && Follows(17) && Follows(18) && Follows(19)
    ensures Follows(20) && Follows(21) && Follows(22) && Follows(23)
  {
    hide Next, SmallDivisor;
    Gaps16();
  }

  lemma Primes24()
    ensures Follows(24) && Follows(25) && Follows(26) && Follows(27)
    ensures Follows(28) && Follows(29) && Follows(30) && Follows(31)
  {
    hide Next, SmallDivisor;
    Gaps24();
  }

  lemma Primes32()
    ensures Follows(32) && Follows(33) && Follows(34) && Follows(35)
    ensures Follows(36) && Follows(37) && Follows(38) && Follows(39)
  {
    hide Next, SmallDivisor;
    Gaps32();
  }

  lemma Primes40()
    ensures Follows(40) && Follows(41) && Follows(42) && Follows(43)
    ensures Follows(44) && Follows(45) && Follows(46) && Follows(47)
  {
    hide Next, SmallDivisor;
    Gaps40();
  }

  lemma Primes48()
    ensures Follows(48) && Follows(49) && Follows(50) && Follows(51)
    ensures Follows(52) && Follows(53) && Follows(54) && Follows(55)
  {
    hide Next, SmallDivisor;
    Gaps48();
  }

  lemma Primes56()
    ensures Follows(56) && Follows(57) && Follows(58) && Follows(59)
    ensures Follows(60) && Follows(61) && Follows(62) && Follows(63)
  {
    hide Next, SmallDivisor;
    Gaps56();
  }

  lemma EachFollows(t: nat)
    requires t < 64
    ensures Follows(t)
  {
    hide Follows;
    if t < 8 {
      Primes0();
    } else if t < 16 {
      Primes8();
    } else if t < 24 {
      Primes16();
    } else if t < 32 {
      Primes24();
    } else if t < 40 {
      Primes32();
    } else if t < 48 {
      Primes40();
    } else if t < 56 {
      Primes48();
    } else {
      Primes56();
    }
  }

  /** The table starts with the first prime, and each entry is the next prime after the one before. */
  lemma PrimesInOrder(t: nat)
    requires t < 64
    ensures Prime(0) == 2 && IsPrime(Prime(t))
    ensures t < 63 ==> Prime(t) < Prime(t + 1) && forall n :: Prime(t) < n < Prime(t + 1) ==> !IsPrime(n)
  {
    EachFollows(t);
    if t == 0 {
      assert !SmallDivisor(2);
    } else {
      EachFollows(t - 1);
    }
    assert Prime(0) == 2;
    hide Prime, SmallDivisor, IsPrime;
    assert 2 <= Prime(t) < 324 && !SmallDivisor(Prime(t));
    TrialDivision(Prime(t));
    if t < 63 {
      forall n | Prime(t) < n < Prime(t + 1) ensures !IsPrime(n) {
        NextMeans(Prime(t), Prime(t + 1), n);
        TrialDivision(n);
      }
    }
  }

  /** The whole part of the cube root of a prime below 343. */
  function CubeRootFloor(p: nat): nat {
    if p < 8 then 1 else if p < 27 then 2 else if p < 64 then 3 else if p < 125 then 4 else if p < 216 then 5 else 6
  }

  /** The whole part of the square root of a prime below 25. */
  function SquareRootFloor(p: nat): nat {
    if p < 4 then 1 else if p < 9 then 2 else if p < 16 then 3 else 4
  }

  /** r is the cube root of p with 32 bits behind the point, rounded down. */
  predicate IsCubeRoot(p: nat, r: nat) {
    r * r * r <= p * 0x1_0000_0000_0000_0000_0000_0000 < (r + 1) * (r + 1) * (r + 1)
  }

  predicate IsSquareRoot(p: nat, r: nat) {
    r * r <= p * 0x1_0000_0000_0000_0000 < (r + 1) * (r + 1)
  }

  predicate FromCubeRoot(t: nat)
    requires t < 64
  {
    IsCubeRoot(Prime(t), CubeRootFloor(Prime(t)) * 0x1_0000_0000 + RoundNumber(t))
  }

  predicate FromSquareRoot(i: nat)
    requires i < 8
  {
    IsSquareRoot(Prime(i), SquareRootFloor(Prime(i)) * 0x1_0000_0000 + InitialNumber(i))
  }

  lemma RoundNumbers0()
    ensures FromCubeRoot(0) && FromCubeRoot(1) && FromCubeRoot(2) && FromCubeRoot(3)
  {
  }

  lemma RoundNumbers4()
    ensures FromCubeRoot(4) && FromCubeRoot(5) && FromCubeRoot(6) && FromCubeRoot(7)
  {
  }

  lemma RoundNumbers8()
    ensures FromCubeRoot(8) && FromCubeRoot(9) && FromCubeRoot(10) && FromCubeRoot(11)
  {
  }

  lemma RoundNumbers12()
    ensures FromCubeRoot(12) && FromCubeRoot(13) && FromCubeRoot(14) && FromCubeRoot(15)
  {
  }

  lemma RoundNumbers16()
    ensures FromCubeRoot(16) && FromCubeRoot(17) && FromCubeRoot(18) && FromCubeRoot(19)
  {
  }

  lemma RoundNumbers20()
    ensures FromCubeRoot(20) && FromCubeRoot(21) && FromCubeRoot(22) && FromCubeRoot(23)
  {
  }

  lemma RoundNumbers24()
    ensures FromCubeRoot(24) && FromCubeRoot(25) && FromCubeRoot(26) && FromCubeRoot(27)
  {
  }

  lemma RoundNumbers28()
    ensures FromCubeRoot(28) && FromCubeRoot(29) && FromCubeRoot(30) && FromCubeRoot(31)
  {
  }

  lemma RoundNumbers32()
    ensures FromCubeRoot(32) && FromCubeRoot(33) && FromCubeRoot(34) && FromCubeRoot(35)
  {
  }

  lemma RoundNumbers36()
    ensures FromCubeRoot(36) && FromCubeRoot(37) && FromCubeRoot(38) && FromCubeRoot(39)
  {
  }

  lemma RoundNumbers40()
    ensures FromCubeRoot(40) && FromCubeRoot(41) && FromCubeRoot(42) && FromCubeRoot(43)
  {
  }

  lemma RoundNumbers44()
    ensures FromCubeRoot(44) && FromCubeRoot(45) && FromCubeRoot(46) && FromCubeRoot(47)
  {
  }

  lemma RoundNumbers48()
    ensures FromCubeRoot(48) && FromCubeRoot(49) && FromCubeRoot(50) && FromCubeRoot(51)
  {
  }

  lemma RoundNumbers52()
    ensures FromCubeRoot(52) && FromCubeRoot(53) && FromCubeRoot(54) && FromCubeRoot(55)
  {
  }

  lemma RoundNumbers56()
    ensures FromCubeRoot(56) && FromCubeRoot(57) && FromCubeRoot(58) && FromCubeRoot(59)
  {
  }

  lemma RoundNumbers60()
    ensures FromCubeRoot(60) && FromCubeRoot(61) && FromCubeRoot(62) && FromCubeRoot(63)
  {
  }

  /** Each round constant is the fraction of the cube root of its prime. */
  lemma RoundNumbersAreRoots(t: nat)
    requires t < 64
    ensures FromCubeRoot(t)
  {
    hide FromCubeRoot;
    if t < 4 {
      RoundNumbers0();
    } else if t < 8 {
      RoundNumbers4();
    } else if t < 12 {
      RoundNumbers8();
    } else if t < 16 {
      RoundNumbers12();
    } else if t < 20 {
      RoundNumbers16();
    } else if t < 24 {
      RoundNumbers20();
    } else if t < 28 {
      RoundNumbers24();
    } else if t < 32 {
      RoundNumbers28();
    } else if t < 36 {
      RoundNumbers32();
    } else if t < 40 {
      RoundNumbers36();
    } else if t < 44 {
      RoundNumbers40();
    } else if t < 48 {
      RoundNumbers44();
    } else if t < 52 {
      RoundNumbers48();
    } else if t < 56 {
      RoundNumbers52();
    } else if t < 60 {
      RoundNumbers56();
    } else {
      RoundNumbers60();
    }
  }

  lemma InitialNumbers0()
    ensures FromSquareRoot(0) && FromSquareRoot(1) && FromSquareRoot(2) && FromSquareRoot(3)
  {
  }

  lemma InitialNumbers4()
    ensures FromSquareRoot(4) && FromSquareRoot(5) && FromSquareRoot(6) && FromSquareRoot(7)
  {
  }

  /** Each word of the initial hash is the fraction of the square root of its prime. */
  lemma InitialNumbersAreRoots(i: nat)
    requires i < 8
    ensures FromSquareRoot(i)
  {
    hide FromSquareRoot;
    InitialNumbers0();
    InitialNumbers4();
  }
}
