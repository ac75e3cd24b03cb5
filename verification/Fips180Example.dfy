/**
 The known answer for the three-byte message "abc", which the examples that accompany FIPS 180-4
 give: every function and constant of the hash, in its place, at work on one block.
 */
module Fips180Example {
  import opened Radix
  import opened Octets
  import opened BlockStream
  import opened FipsConstants
  import opened Fips180

  const ABC: Bytes := [97, 98, 99]

  /** The message, its marker byte, and its 24 bits. */
  const BLOCK: Block := ABC + [0x80] + Zeros(59) + [24]

  lemma {:induction false} NoughtsWorthNothing(n: nat)
    ensures Value(256, seq(n, _ => 0)) == 0
  {
    if n > 0 {
      assert seq(n, _ => 0)[..n - 1] == seq(n - 1, _ => 0);
      NoughtsWorthNothing(n - 1);
    }
  }

  lemma LengthOfThree()
    ensures Value(256, Nats(BLOCK[56..])) == 24
  {
    NoughtsWorthNothing(7);
    ValueAppend(256, seq(7, _ => 0), 24);
    hide Value;
    assert Nats(BLOCK[56..]) == seq(7, _ => 0) + [24];
  }

  lemma Padded()
    ensures Pad(ABC) == BLOCK
  {
    hide Value, Pad;
    LengthOfThree();
    PadExactly(ABC, BLOCK);
  }

  // ----- constants

  lemma CastBack(w: Word)
    ensures (w as int) as Word == w
  {
  }

  lemma Constant(t: nat, w: Word)
    requires t < 64 && RoundNumber(t) == w as int
    ensures RoundConstant(t) == w
  {
    hide RoundNumber;
    CastBack(w);
  }

  lemma Initial(i: nat, w: Word)
    requires i < 8 && InitialNumber(i) == w as int
    ensures InitialWord(i) == w
  {
    hide InitialNumber;
    CastBack(w);
  }

  lemma InitialWords()
    ensures InitialHash() ==
           [0x6a09e667, 0xbb67ae85, 0x3c6ef372, 0xa54ff53a,
            0x510e527f, 0x9b05688c, 0x1f83d9ab, 0x5be0cd19]
  {
    Initial(0, 0x6a09e667);
    Initial(1, 0xbb67ae85);
    Initial(2, 0x3c6ef372);
    Initial(3, 0xa54ff53a);
    Initial(4, 0x510e527f);
    Initial(5, 0x9b05688c);
    Initial(6, 0x1f83d9ab);
    Initial(7, 0x5be0cd19);
    hide InitialWord;
  }

  // ----- the message schedule

  lemma Expanded(t: nat, w2: Word, w7: Word, w15: Word, w16: Word, w: Word)
    requires 16 <= t < 64
    requires Schedule(BLOCK, t - 2) == w2 && Schedule(BLOCK, t - 7) == w7
    requires Schedule(BLOCK, t - 15) == w15 && Schedule(BLOCK, t - 16) == w16
    requires Plus(Plus(Plus(Sigma1(w2), w7), Sigma0(w15)), w16) == w
    ensures Schedule(BLOCK, t) == w
  {
    hide Plus, Sigma0, Sigma1, Load;
  }

  lemma Words0()
    ensures Schedule(BLOCK, 0) == 0x61626380 && Schedule(BLOCK, 1) == 0x00000000
    ensures Schedule(BLOCK, 2) == 0x00000000 && Schedule(BLOCK, 3) == 0x00000000
    ensures Schedule(BLOCK, 4) == 0x00000000 && Schedule(BLOCK, 5) == 0x00000000
    ensures Schedule(BLOCK, 6) == 0x00000000 && Schedule(BLOCK, 7) == 0x00000000
    ensures Schedule(BLOCK, 8) == 0x00000000 && Schedule(BLOCK, 9) == 0x00000000
    ensures Schedule(BLOCK, 10) == 0x00000000 && Schedule(BLOCK, 11) == 0x00000000
    ensures Schedule(BLOCK, 12) == 0x00000000 && Schedule(BLOCK, 13) == 0x00000000
    ensures Schedule(BLOCK, 14) == 0x00000000 && Schedule(BLOCK, 15) == 0x00000018
  {
    hide Load;
    LoadedWords();
  }

  lemma LoadedWords()
    ensures Load(97, 98, 99, 0x80) == 0x61626380 && Load(0, 0, 0, 0) == 0 && Load(0, 0, 0, 24) == 24
  {
  }

  lemma Words16()
    ensures Schedule(BLOCK, 16) == 0x61626380 && Schedule(BLOCK, 17) == 0x000f0000
    ensures Schedule(BLOCK, 18) == 0x7da86405 && Schedule(BLOCK, 19) == 0x600003c6
    ensures Schedule(BLOCK, 20) == 0x3e9d7b78 && Schedule(BLOCK, 21) == 0x0183fc00
    ensures Schedule(BLOCK, 22) == 0x12dcbfdb && Schedule(BLOCK, 23) == 0xe2e2c38e
  {
    hide Schedule;
    Words0();
    Expanded(16, 0x00000000, 0x00000000, 0x00000000, 0x61626380, 0x61626380);
    Expanded(17, 0x00000018, 0x00000000, 0x00000000, 0x00000000, 0x000f0000);
    Expanded(18, 0x61626380, 0x00000000, 0x00000000, 0x00000000, 0x7da86405);
    Expanded(19, 0x000f0000, 0x00000000, 0x00000000, 0x00000000, 0x600003c6);
    Expanded(20, 0x7da86405, 0x00000000, 0x00000000, 0x00000000, 0x3e9d7b78);
    Expanded(21, 0x600003c6, 0x00000000, 0x00000000, 0x00000000, 0x0183fc00);
    Expanded(22, 0x3e9d7b78, 0x00000018, 0x00000000, 0x00000000, 0x12dcbfdb);
    Expanded(23, 0x0183fc00, 0x61626380, 0x00000000, 0x00000000, 0xe2e2c38e);
  }

  lemma Words24()
    ensures Schedule(BLOCK, 24) == 0xc8215c1a && Schedule(BLOCK, 25) == 0xb73679a2
    ensures Schedule(BLOCK, 26) == 0xe5bc3909 && Schedule(BLOCK, 27) == 0x32663c5b
    ensures Schedule(BLOCK, 28) == 0x9d209d67 && Schedule(BLOCK, 29) == 0xec8726cb
    ensures Schedule(BLOCK, 30) == 0x702138a4 && Schedule(BLOCK, 31) == 0xd3b7973b
  {
    hide Schedule;
    Words0();
    Words16();
    Expanded(24, 0x12dcbfdb, 0x000f0000, 0x00000000, 0x00000000, 0xc8215c1a);
    Expanded(25, 0xe2e2c38e, 0x7da86405, 0x00000000, 0x00000000, 0xb73679a2);
    Expanded(26, 0xc8215c1a, 0x600003c6, 0x00000000, 0x00000000, 0xe5bc3909);
    Expanded(27, 0xb73679a2, 0x3e9d7b78, 0x00000000, 0x00000000, 0x32663c5b);
    Expanded(28, 0xe5bc3909, 0x0183fc00, 0x00000000, 0x00000000, 0x9d209d67);
    Expanded(29, 0x32663c5b, 0x12dcbfdb, 0x00000000, 0x00000000, 0xec8726cb);
    Expanded(30, 0x9d209d67, 0xe2e2c38e, 0x00000018, 0x00000000, 0x702138a4);
    Expanded(31, 0xec8726cb, 0xc8215c1a, 0x61626380, 0x00000018, 0xd3b7973b);
  }

  lemma Words32()
    ensures Schedule(BLOCK, 32) == 0x93f5997f && Schedule(BLOCK, 33) == 0x3b68ba73
    ensures Schedule(BLOCK, 34) == 0xaff4ffc1 && Schedule(BLOCK, 35) == 0xf10a5c62
    ensures Schedule(BLOCK, 36) == 0x0a8b3996 && Schedule(BLOCK, 37) == 0x72af830a
    ensures Schedule(BLOCK, 38) == 0x9409e33e && Schedule(BLOCK, 39) == 0x24641522
  {
    hide Schedule;
    Words16();
    Words24();
    Expanded(32, 0x702138a4, 0xb73679a2, 0x000f0000, 0x61626380, 0x93f5997f);
    Expanded(33, 0xd3b7973b, 0xe5bc3909, 0x7da86405, 0x000f0000, 0x3b68ba73);
    Expanded(34, 0x93f5997f, 0x32663c5b, 0x600003c6, 0x7da86405, 0xaff4ffc1);
    Expanded(35, 0x3b68ba73, 0x9d209d67, 0x3e9d7b78, 0x600003c6, 0xf10a5c62);
    Expanded(36, 0xaff4ffc1, 0xec8726cb, 0x0183fc00, 0x3e9d7b78, 0x0a8b3996);
    Expanded(37, 0xf10a5c62, 0x702138a4, 0x12dcbfdb, 0x0183fc00, 0x72af830a);
    Expanded(38, 0x0a8b3996, 0xd3b7973b, 0xe2e2c38e, 0x12dcbfdb, 0x9409e33e);
    Expanded(39, 0x72af830a, 0x93f5997f, 0xc8215c1a, 0xe2e2c38e, 0x24641522);
  }

  lemma Words40()
    ensures Schedule(BLOCK, 40) == 0x9f47bf94 && Schedule(BLOCK, 41) == 0xf0a64f5a
    ensures Schedule(BLOCK, 42) == 0x3e246a79 && Schedule(BLOCK, 43) == 0x27333ba3
    ensures Schedule(BLOCK, 44) == 0x0c4763f2 && Schedule(BLOCK, 45) == 0x840abf27
    ensures Schedule(BLOCK, 46) == 0x7a290d5d && Schedule(BLOCK, 47) == 0x065c43da
  {
    hide Schedule;
    Words24();
    Words32();
    Expanded(40, 0x9409e33e, 0x3b68ba73, 0xb73679a2, 0xc8215c1a, 0x9f47bf94);
    Expanded(41, 0x24641522, 0xaff4ffc1, 0xe5bc3909, 0xb73679a2, 0xf0a64f5a);
    Expanded(42, 0x9f47bf94, 0xf10a5c62, 0x32663c5b, 0xe5bc3909, 0x3e246a79);
    Expanded(43, 0xf0a64f5a, 0x0a8b3996, 0x9d209d67, 0x32663c5b, 0x27333ba3);
    Expanded(44, 0x3e246a79, 0x72af830a, 0xec8726cb, 0x9d209d67, 0x0c4763f2);
    Expanded(45, 0x27333ba3, 0x9409e33e, 0x702138a4, 0xec8726cb, 0x840abf27);
    Expanded(46, 0x0c4763f2, 0x24641522, 0xd3b7973b, 0x702138a4, 0x7a290d5d);
    Expanded(47, 0x840abf27, 0x9f47bf94, 0x93f5997f, 0xd3b7973b, 0x065c43da);
  }

  lemma Words48()
    ensures Schedule(BLOCK, 48) == 0xfb3e89cb && Schedule(BLOCK, 49) == 0xcc7617db
    ensures Schedule(BLOCK, 50) == 0xb9e66c34 && Schedule(BLOCK, 51) == 0xa9993667
    ensures Schedule(BLOCK, 52) == 0x84badedd && Schedule(BLOCK, 53) == 0xc21462bc
    ensures Schedule(BLOCK, 54) == 0x1487472c && Schedule(BLOCK, 55) == 0xb20f7a99
  {
    hide Schedule;
    Words32();
    Words40();
    Expanded(48, 0x7a290d5d, 0xf0a64f5a, 0x3b68ba73, 0x93f5997f, 0xfb3e89cb);
    Expanded(49, 0x065c43da, 0x3e246a79, 0xaff4ffc1, 0x3b68ba73, 0xcc7617db);
    Expanded(50, 0xfb3e89cb, 0x27333ba3, 0xf10a5c62, 0xaff4ffc1, 0xb9e66c34);
    Expanded(51, 0xcc7617db, 0x0c4763f2, 0x0a8b3996, 0xf10a5c62, 0xa9993667);
    Expanded(52, 0xb9e66c34, 0x840abf27, 0x72af830a, 0x0a8b3996, 0x84badedd);
    Expanded(53, 0xa9993667, 0x7a290d5d, 0x9409e33e, 0x72af830a, 0xc21462bc);
    Expanded(54, 0x84badedd, 0x065c43da, 0x24641522, 0x9409e33e, 0x1487472c);
    Expanded(55, 0xc21462bc, 0xfb3e89cb, 0x9f47bf94, 0x24641522, 0xb20f7a99);
  }

  lemma Words56()
    ensures Schedule(BLOCK, 56) == 0xef57b9cd && Schedule(BLOCK, 57) == 0xebe6b238
    ensures Schedule(BLOCK, 58) == 0x9fe3095e && Schedule(BLOCK, 59) == 0x78bc8d4b
    ensures Schedule(BLOCK, 60) == 0xa43fcf15 && Schedule(BLOCK, 61) == 0x668b2ff8
    ensures Schedule(BLOCK, 62) == 0xeeaba2cc && Schedule(BLOCK, 63) == 0x12b1edeb
  {
    hide Schedule;
    Words40();
    Words48();
    Expanded(56, 0x1487472c, 0xcc7617db, 0xf0a64f5a, 0x9f47bf94, 0xef57b9cd);
    Expanded(57, 0xb20f7a99, 0xb9e66c34, 0x3e246a79, 0xf0a64f5a, 0xebe6b238);
    Expanded(58, 0xef57b9cd, 0xa9993667, 0x27333ba3, 0x3e246a79, 0x9fe3095e);
    Expanded(59, 0xebe6b238, 0x84badedd, 0x0c4763f2, 0x27333ba3, 0x78bc8d4b);
    Expanded(60, 0x9fe3095e, 0xc21462bc, 0x840abf27, 0x0c4763f2, 0xa43fcf15);
    Expanded(61, 0x78bc8d4b, 0x1487472c, 0x7a290d5d, 0x840abf27, 0x668b2ff8);
    Expanded(62, 0xa43fcf15, 0xb20f7a99, 0x065c43da, 0x7a290d5d, 0xeeaba2cc);
    Expanded(63, 0x668b2ff8, 0xef57b9cd, 0xfb3e89cb, 0x065c43da, 0x12b1edeb);
  }

  // ----- the rounds

  /** The working variables after t rounds. */
  function After(t: nat): Working
    requires t <= 64
  {
    Rounds(Start(InitialHash()), BLOCK, t)
  }

  lemma NextRound(t: nat, v: Working, k: Word, w: Word, a: Word, e: Word) returns (next: Working)
    requires t < 64 && After(t) == v && RoundNumber(t) == k as int && Schedule(BLOCK, t) == w
    requires Round(v, k, w).a == a && Round(v, k, w).e == e
    ensures next == Working(a, v.a, v.b, v.c, e, v.e, v.f, v.g) && After(t + 1) == next
  {
    next := Working(a, v.a, v.b, v.c, e, v.e, v.f, v.g);
    Constant(t, k);
    hide RoundConstant, RoundNumber, Schedule, InitialHash, Plus, Sum0, Sum1, Ch, Maj;
  }

  lemma After0()
    ensures After(0) == Working(0x6a09e667, 0xbb67ae85, 0x3c6ef372, 0xa54ff53a,
                    0x510e527f, 0x9b05688c, 0x1f83d9ab, 0x5be0cd19)
  {
    InitialWords();
    hide InitialHash;
  }

  lemma Numbers0()
    ensures RoundNumber(0) == 0x428a2f98 && RoundNumber(1) == 0x71374491
    ensures RoundNumber(2) == 0xb5c0fbcf && RoundNumber(3) == 0xe9b5dba5
    ensures RoundNumber(4) == 0x3956c25b && RoundNumber(5) == 0x59f111f1
    ensures RoundNumber(6) == 0x923f82a4 && RoundNumber(7) == 0xab1c5ed5
  {
  }

  lemma After8()
    ensures After(8) == Working(0x85a07b5f, 0xe5030380, 0x2b4209f5, 0x04409a6a,
                     0x0c657a79, 0x9b27a401, 0x714260ad, 0x43ada245)
  {
    hide After, Schedule, RoundNumber;
    After0();
    Words0();
    Numbers0();
    var v := After(0);
    v := NextRound(0, v, 0x428a2f98, 0x61626380, 0x5d6aebcd, 0xfa2a4622);
    v := NextRound(1, v, 0x71374491, 0x00000000, 0x5a6ad9ad, 0x78ce7989);
    v := NextRound(2, v, 0xb5c0fbcf, 0x00000000, 0xc8c347a7, 0xf92939eb);
    v := NextRound(3, v, 0xe9b5dba5, 0x00000000, 0xd550f666, 0x24e00850);
    v := NextRound(4, v, 0x3956c25b, 0x00000000, 0x04409a6a, 0x43ada245);
    v := NextRound(5, v, 0x59f111f1, 0x00000000, 0x2b4209f5, 0x714260ad);
    v := NextRound(6, v, 0x923f82a4, 0x00000000, 0xe5030380, 0x9b27a401);
    v := NextRound(7, v, 0xab1c5ed5, 0x00000000, 0x85a07b5f, 0x0c657a79);
  }

  lemma Numbers8()
    ensures RoundNumber(8) == 0xd807aa98 && RoundNumber(9) == 0x12835b01
    ensures RoundNumber(10) == 0x243185be && RoundNumber(11) == 0x550c7dc3
    ensures RoundNumber(12) == 0x72be5d74 && RoundNumber(13) == 0x80deb1fe
    ensures RoundNumber(14) == 0x9bdc06a7 && RoundNumber(15) == 0xc19bf174
  {
  }

  lemma After16()
    ensures After(16) == Working(0xb0fa238e, 0xc0645fde, 0xd932eb16, 0x87912990,
                     0x07590dcd, 0x0b92f20c, 0x745a48de, 0x1e578218)
  {
    hide After, Schedule, RoundNumber;
    After8();
    Words0();
    Numbers8();
    var v := After(8);
    v := NextRound(8, v, 0xd807aa98, 0x00000000, 0x8e04ecb9, 0x32ca2d8c);
    v := NextRound(9, v, 0x12835b01, 0x00000000, 0x8c87346b, 0x1cc92596);
    v := NextRound(10, v, 0x243185be, 0x00000000, 0x4798a3f4, 0x436b23e8);
    v := NextRound(11, v, 0x550c7dc3, 0x00000000, 0xf71fc5a9, 0x816fd6e9);
    v := NextRound(12, v, 0x72be5d74, 0x00000000, 0x87912990, 0x1e578218);
    v := NextRound(13, v, 0x80deb1fe, 0x00000000, 0xd932eb16, 0x745a48de);
    v := NextRound(14, v, 0x9bdc06a7, 0x00000000, 0xc0645fde, 0x0b92f20c);
    v := NextRound(15, v, 0xc19bf174, 0x00000018, 0xb0fa238e, 0x07590dcd);
  }

  lemma Numbers16()
    ensures RoundNumber(16) == 0xe49b69c1 && RoundNumber(17) == 0xefbe4786
    ensures RoundNumber(18) == 0x0fc19dc6 && RoundNumber(19) == 0x240ca1cc
    ensures RoundNumber(20) == 0x2de92c6f && RoundNumber(21) == 0x4a7484aa
    ensures RoundNumber(22) == 0x5cb0a9dc && RoundNumber(23) == 0x76f988da
  {
  }

  lemma After24()
    ensures After(24) == Working(0xc5d53d8d, 0xa7a3623f, 0xc2606d6d, 0x9dc68b63,
                     0xaa47c347, 0x49f5114a, 0xe1257970, 0x8ada8930)
  {
    hide After, Schedule, RoundNumber;
    After16();
    Words16();
    Numbers16();
    var v := After(16);
    v := NextRound(16, v, 0xe49b69c1, 0x61626380, 0x21da9a9b, 0x8034229c);
    v := NextRound(17, v, 0xefbe4786, 0x000f0000, 0xc2fbd9d1, 0x846ee454);
    v := NextRound(18, v, 0x0fc19dc6, 0x7da86405, 0xfe777bbf, 0xcc899961);
    v := NextRound(19, v, 0x240ca1cc, 0x600003c6, 0xe1f20c33, 0xb0638179);
    v := NextRound(20, v, 0x2de92c6f, 0x3e9d7b78, 0x9dc68b63, 0x8ada8930);
    v := NextRound(21, v, 0x4a7484aa, 0x0183fc00, 0xc2606d6d, 0xe1257970);
    v := NextRound(22, v, 0x5cb0a9dc, 0x12dcbfdb, 0xa7a3623f, 0x49f5114a);
    v := NextRound(23, v, 0x76f988da, 0xe2e2c38e, 0xc5d53d8d, 0xaa47c347);
  }

  lemma Numbers24()
    ensures RoundNumber(24) == 0x983e5152 && RoundNumber(25) == 0xa831c66d
    ensures RoundNumber(26) == 0xb00327c8 && RoundNumber(27) == 0xbf597fc7
    ensures RoundNumber(28) == 0xc6e00bf3 && RoundNumber(29) == 0xd5a79147
    ensures RoundNumber(30) == 0x06ca6351 && RoundNumber(31) == 0x14292967
  {
  }

  lemma After32()
    ensures After(32) == Working(0x73b33bf5, 0xea992a22, 0xa0060b30, 0x363482c9,
                     0xba591112, 0x0109ab3a, 0xade79437, 0x6112a3b7)
  {
    hide After, Schedule, RoundNumber;
    After24();
    Words24();
    Numbers24();
    var v := After(24);
    v := NextRound(24, v, 0x983e5152, 0xc8215c1a, 0x1c2c2838, 0x2823ef91);
    v := NextRound(25, v, 0xa831c66d, 0xb73679a2, 0xcde8037d, 0x14383d8e);
    v := NextRound(26, v, 0xb00327c8, 0xe5bc3909, 0xb62ec4bc, 0xc74c6516);
    v := NextRound(27, v, 0xbf597fc7, 0x32663c5b, 0x77d37528, 0xedffbff8);
    v := NextRound(28, v, 0xc6e00bf3, 0x9d209d67, 0x363482c9, 0x6112a3b7);
    v := NextRound(29, v, 0xd5a79147, 0xec8726cb, 0xa0060b30, 0xade79437);
    v := NextRound(30, v, 0x06ca6351, 0x702138a4, 0xea992a22, 0x0109ab3a);
    v := NextRound(31, v, 0x14292967, 0xd3b7973b, 0x73b33bf5, 0xba591112);
  }

  lemma Numbers32()
    ensures RoundNumber(32) == 0x27b70a85 && RoundNumber(33) == 0x2e1b2138
    ensures RoundNumber(34) == 0x4d2c6dfc && RoundNumber(35) == 0x53380d13
    ensures RoundNumber(36) == 0x650a7354 && RoundNumber(37) == 0x766a0abb
    ensures RoundNumber(38) == 0x81c2c92e && RoundNumber(39) == 0x92722c85
  {
  }

  lemma After40()
    ensures After(40) == Working(0x79ea687a, 0x6dc57a8a, 0x34df1604, 0x41a65cb1,
                     0x1efbc0a0, 0xf0781bc8, 0xa507a53d, 0x0772a26b)
  {
    hide After, Schedule, RoundNumber;
    After32();
    Words32();
    Numbers32();
    var v := After(32);
    v := NextRound(32, v, 0x27b70a85, 0x93f5997f, 0x98e12507, 0x9cd9f5f6);
    v := NextRound(33, v, 0x2e1b2138, 0x3b68ba73, 0xfe604df5, 0x59249dd3);
    v := NextRound(34, v, 0x4d2c6dfc, 0xaff4ffc1, 0xa9a7738c, 0x085f3833);
    v := NextRound(35, v, 0x53380d13, 0xf10a5c62, 0x65a0cfe4, 0xf4b002d6);
    v := NextRound(36, v, 0x650a7354, 0x0a8b3996, 0x41a65cb1, 0x0772a26b);
    v := NextRound(37, v, 0x766a0abb, 0x72af830a, 0x34df1604, 0xa507a53d);
    v := NextRound(38, v, 0x81c2c92e, 0x9409e33e, 0x6dc57a8a, 0xf0781bc8);
    v := NextRound(39, v, 0x92722c85, 0x24641522, 0x79ea687a, 0x1efbc0a0);
  }

  lemma Numbers40()
    ensures RoundNumber(40) == 0xa2bfe8a1 && RoundNumber(41) == 0xa81a664b
    ensures RoundNumber(42) == 0xc24b8b70 && RoundNumber(43) == 0xc76c51a3
    ensures RoundNumber(44) == 0xd192e819 && RoundNumber(45) == 0xd6990624
    ensures RoundNumber(46) == 0xf40e3585 && RoundNumber(47) == 0x106aa070
  {
  }

  lemma After48()
    ensures After(48) == Working(0x4172328d, 0xa14c14b0, 0x72ab4b91, 0x26628815,
                     0xfecf0bc6, 0xd57b94a9, 0xb7755da1, 0xa80f11f0)
  {
    hide After, Schedule, RoundNumber;
    After40();
    Words40();
    Numbers40();
    var v := After(40);
    v := NextRound(40, v, 0xa2bfe8a1, 0x9f47bf94, 0xd6670766, 0x26352d63);
    v := NextRound(41, v, 0xa81a664b, 0xf0a64f5a, 0xdf46652f, 0x838b2711);
    v := NextRound(42, v, 0xc24b8b70, 0x3e246a79, 0x17aa0dfe, 0xdecd4715);
    v := NextRound(43, v, 0xc76c51a3, 0x27333ba3, 0x9d4baf93, 0xfda24c2e);
    v := NextRound(44, v, 0xd192e819, 0x0c4763f2, 0x26628815, 0xa80f11f0);
    v := NextRound(45, v, 0xd6990624, 0x840abf27, 0x72ab4b91, 0xb7755da1);
    v := NextRound(46, v, 0xf40e3585, 0x7a290d5d, 0xa14c14b0, 0xd57b94a9);
    v := NextRound(47, v, 0x106aa070, 0x065c43da, 0x4172328d, 0xfecf0bc6);
  }

  lemma Numbers48()
    ensures RoundNumber(48) == 0x19a4c116 && RoundNumber(49) == 0x1e376c08
    ensures RoundNumber(50) == 0x2748774c && RoundNumber(51) == 0x34b0bcb5
    ensures RoundNumber(52) == 0x391c0cb3 && RoundNumber(53) == 0x4ed8aa4a
    ensures RoundNumber(54) == 0x5b9cca4f && RoundNumber(55) == 0x682e6ff3
  {
  }

  lemma After56()
    ensures After(56) == Working(0x38cc9913, 0x3ec45cdb, 0xf5702fdb, 0x101fd28f,
                     0x54cb266b, 0xe50e1b4f, 0x9f4787c3, 0x529e7d00)
  {
    hide After, Schedule, RoundNumber;
    After48();
    Words48();
    Numbers48();
    var v := After(48);
    v := NextRound(48, v, 0x19a4c116, 0xfb3e89cb, 0x05757ceb, 0xbd714038);
    v := NextRound(49, v, 0x1e376c08, 0xcc7617db, 0xf11bfaa8, 0x6e5c390c);
    v := NextRound(50, v, 0x2748774c, 0xb9e66c34, 0x7a0508a1, 0x52f1ccf7);
    v := NextRound(51, v, 0x34b0bcb5, 0xa9993667, 0x886e7a22, 0x49231c1e);
    v := NextRound(52, v, 0x391c0cb3, 0x84badedd, 0x101fd28f, 0x529e7d00);
    v := NextRound(53, v, 0x4ed8aa4a, 0xc21462bc, 0xf5702fdb, 0x9f4787c3);
    v := NextRound(54, v, 0x5b9cca4f, 0x1487472c, 0x3ec45cdb, 0xe50e1b4f);
    v := NextRound(55, v, 0x682e6ff3, 0xb20f7a99, 0x38cc9913, 0x54cb266b);
  }

  lemma Numbers56()
    ensures RoundNumber(56) == 0x748f82ee && RoundNumber(57) == 0x78a5636f
    ensures RoundNumber(58) == 0x84c87814 && RoundNumber(59) == 0x8cc70208
    ensures RoundNumber(60) == 0x90befffa && RoundNumber(61) == 0xa4506ceb
    ensures RoundNumber(62) == 0xbef9a3f7 && RoundNumber(63) == 0xc67178f2
  {
  }

  lemma After64()
    ensures After(64) == Working(0x506e3058, 0xd39a2165, 0x04d24d6c, 0xb85e2ce9,
                     0x5ef50f24, 0xfb121210, 0x948d25b6, 0x961f4894)
  {
    hide After, Schedule, RoundNumber;
    After56();
    Words56();
    Numbers56();
    var v := After(56);
    v := NextRound(56, v, 0x748f82ee, 0xef57b9cd, 0xfcd1887b, 0x9b5e906c);
    v := NextRound(57, v, 0x78a5636f, 0xebe6b238, 0xc062d46f, 0x7e44008e);
    v := NextRound(58, v, 0x84c87814, 0x9fe3095e, 0xffb70472, 0x6d83bfc6);
    v := NextRound(59, v, 0x8cc70208, 0x78bc8d4b, 0xb6ae8fff, 0xb21bad3d);
    v := NextRound(60, v, 0x90befffa, 0xa43fcf15, 0xb85e2ce9, 0x961f4894);
    v := NextRound(61, v, 0xa4506ceb, 0x668b2ff8, 0x04d24d6c, 0x948d25b6);
    v := NextRound(62, v, 0xbef9a3f7, 0xeeaba2cc, 0xd39a2165, 0xfb121210);
    v := NextRound(63, v, 0xc67178f2, 0x12b1edeb, 0x506e3058, 0x5ef50f24);
  }

  // ----- the digest

  lemma Compressed()
    ensures Compress(InitialHash(), BLOCK) ==
            [0xba7816bf, 0x8f01cfea, 0x414140de, 0x5dae2223,
             0xb00361a3, 0x96177a9c, 0xb410ff61, 0xf20015ad]
  {
    After64();
    InitialWords();
    hide InitialHash, Rounds;
  }

  lemma OneBlock()
    ensures Fold(Compress, InitialHash(), BLOCK) == Compress(InitialHash(), BLOCK)
  {
    hide Compress, InitialHash;
    assert BLOCK[..64] == BLOCK && BLOCK[64..] == [];
  }

  lemma SerializedStep(words: seq<Word>, n: nat)
    requires 0 < n <= |words|
    ensures Serialize(words[..n]) == Serialize(words[..n - 1]) + WordBytes(words[n - 1])
    ensures Serialize(words[..0]) == []
  {
    assert words[..n][..n - 1] == words[..n - 1];
  }

  lemma Regrouped(s: Bytes, a: Bytes, b: Bytes, c: Bytes, d: Bytes)
    ensures s + a + b + c + d == s + (a + b + c + d)
  {
  }

  lemma SerializedFour(words: seq<Word>, n: nat)
    requires 4 <= n <= |words|
    ensures Serialize(words[..n]) == Serialize(words[..n - 4]) +
              (WordBytes(words[n - 4]) + WordBytes(words[n - 3]) + WordBytes(words[n - 2]) + WordBytes(words[n - 1]))
  {
    hide Serialize, WordBytes;
    SerializedStep(words, n);
    SerializedStep(words, n - 1);
    SerializedStep(words, n - 2);
    SerializedStep(words, n - 3);
    Regrouped(Serialize(words[..n - 4]), WordBytes(words[n - 4]), WordBytes(words[n - 3]), WordBytes(words[n - 2]),
              WordBytes(words[n - 1]));
  }

  lemma WordBytes0()
    ensures WordBytes(0xba7816bf) + WordBytes(0x8f01cfea) + WordBytes(0x414140de) + WordBytes(0x5dae2223) ==
            [0xba, 0x78, 0x16, 0xbf, 0x8f, 0x01, 0xcf, 0xea, 0x41, 0x41, 0x40, 0xde, 0x5d, 0xae, 0x22, 0x23]
  {
    assert WordBytes(0xba7816bf) == [0xba, 0x78, 0x16, 0xbf];
    assert WordBytes(0x8f01cfea) == [0x8f, 0x01, 0xcf, 0xea];
    assert WordBytes(0x414140de) == [0x41, 0x41, 0x40, 0xde];
    assert WordBytes(0x5dae2223) == [0x5d, 0xae, 0x22, 0x23];
    hide WordBytes;
  }

  lemma WordBytes4()
    ensures WordBytes(0xb00361a3) + WordBytes(0x96177a9c) + WordBytes(0xb410ff61) + WordBytes(0xf20015ad) ==
            [0xb0, 0x03, 0x61, 0xa3, 0x96, 0x17, 0x7a, 0x9c, 0xb4, 0x10, 0xff, 0x61, 0xf2, 0x00, 0x15, 0xad]
  {
    assert WordBytes(0xb00361a3) == [0xb0, 0x03, 0x61, 0xa3];
    assert WordBytes(0x96177a9c) == [0x96, 0x17, 0x7a, 0x9c];
    assert WordBytes(0xb410ff61) == [0xb4, 0x10, 0xff, 0x61];
    assert WordBytes(0xf20015ad) == [0xf2, 0x00, 0x15, 0xad];
    hide WordBytes;
  }

  lemma DigestBytes()
    ensures Serialize([0xba7816bf, 0x8f01cfea, 0x414140de, 0x5dae2223,
                       0xb00361a3, 0x96177a9c, 0xb410ff61, 0xf20015ad]) ==
            [0xba, 0x78, 0x16, 0xbf, 0x8f, 0x01, 0xcf, 0xea, 0x41, 0x41, 0x40, 0xde, 0x5d, 0xae, 0x22, 0x23] +
            [0xb0, 0x03, 0x61, 0xa3, 0x96, 0x17, 0x7a, 0x9c, 0xb4, 0x10, 0xff, 0x61, 0xf2, 0x00, 0x15, 0xad]
  {
    hide Serialize, WordBytes;
    var h := [0xba7816bf, 0x8f01cfea, 0x414140de, 0x5dae2223,
              0xb00361a3, 0x96177a9c, 0xb410ff61, 0xf20015ad];
    SerializedFour(h, 8);
    SerializedFour(h, 4);
    SerializedStep(h, 1);
    WordBytes0();
    WordBytes4();
    assert h[..8] == h;
  }

  /** The SHA-256 of "abc". */
  lemma KnownAnswer()
    ensures Sha256Of([97, 98, 99]) ==
            [0xba, 0x78, 0x16, 0xbf, 0x8f, 0x01, 0xcf, 0xea, 0x41, 0x41, 0x40, 0xde, 0x5d, 0xae, 0x22, 0x23] +
            [0xb0, 0x03, 0x61, 0xa3, 0x96, 0x17, 0x7a, 0x9c, 0xb4, 0x10, 0xff, 0x61, 0xf2, 0x00, 0x15, 0xad]
  {
    Padded();
    OneBlock();
    Compressed();
    DigestBytes();
    hide Pad, Fold, Compress, InitialHash, Serialize;
  }
}
