/**
 The secure hash algorithm SHA-256 as FIPS 180-4 defines it, one whole message at a time:
 functions (section 4.1.2), constants (4.2.2 and 5.3.3), padding (5.1.1), parsing (5.2.1)
 and the hash computation (6.2.2).
 */
module Fips180 {
  import opened Radix
  import opened Octets
  import opened BlockStream
  import opened FipsConstants
  import opened Machine

  type Word = bv32
  type Hash = h: seq<Word> | |h| == 8 witness seq(8, _ => 0)

  // ----- constants

  function RoundConstant(t: nat): Word
    requires t < 64
  {
    RoundNumber(t) as Word
  }

  function InitialWord(i: nat): Word
    requires i < 8
  {
    InitialNumber(i) as Word
  }

  function InitialHash(): Hash {
    seq(8, i requires 0 <= i < 8 => InitialWord(i))
  }

  // ----- functions on words

  /** Addition modulo 2^32. */
  function Plus(x: Word, y: Word): Word { x + y }

  /** ROTR of section 3.2. */
  function Rotr(x: Word, n: Word): Word
    requires 0 < n < 32
  {
    (x >> n) | (x << (32 - n))
  }

  function Ch(x: Word, y: Word, z: Word): Word { (x & y) ^ (!x & z) }

  function Maj(x: Word, y: Word, z: Word): Word { (x & y) ^ (x & z) ^ (y & z) }

  /** Ch chooses: the bit of y where x has a one, that of z where x has a zero. */
  lemma Chooses(x: Word, y: Word, z: Word, w: Word)
    requires w == Ch(x, y, z)
    ensures w == (x & y) | (!x & z)
  {
  }

  /** Maj votes: a bit that two of the three have. */
  lemma Votes(x: Word, y: Word, z: Word, w: Word)
    requires w == Maj(x, y, z)
    ensures w == (x & y) | (x & z) | (y & z)
  {
  }

  function Sum0(x: Word): Word { Rotr(x, 2) ^ Rotr(x, 13) ^ Rotr(x, 22) }

  function Sum1(x: Word): Word { Rotr(x, 6) ^ Rotr(x, 11) ^ Rotr(x, 25) }

  function Sigma0(x: Word): Word { Rotr(x, 7) ^ Rotr(x, 18) ^ (x >> 3) }

  function Sigma1(x: Word): Word { Rotr(x, 17) ^ Rotr(x, 19) ^ (x >> 10) }

  function Pack(x0: bv8, x1: bv8, x2: bv8, x3: bv8): Word {
    (x0 as Word << 24) | (x1 as Word << 16) | (x2 as Word << 8) | (x3 as Word)
  }

  /** Four bytes as one word, most significant first. */
  function Load(b0: Byte, b1: Byte, b2: Byte, b3: Byte): Word {
    Pack(b0 as bv8, b1 as bv8, b2 as bv8, b3 as bv8)
  }

  /** The eight bits of a word above the lowest n. */
  function ByteAbove(w: Word, n: Word): Byte
    requires n <= 24
  {
    ((w >> n) & 0xFF) as bv8 as Byte
  }

  // ----- compression of one block

  /** Word t of the message schedule. */
  function Schedule(block: Block, t: nat): Word
    requires t < 64
  {
    if t < 16 then Load(block[4 * t], block[4 * t + 1], block[4 * t + 2], block[4 * t + 3])
    else Plus(Plus(Plus(Sigma1(Schedule(block, t - 2)), Schedule(block, t - 7)),
                   Sigma0(Schedule(block, t - 15))), Schedule(block, t - 16))
  }

  datatype Working = Working(a: Word, b: Word, c: Word, d: Word, e: Word, f: Word, g: Word, h: Word)

  function Round(v: Working, k: Word, w: Word): Working {
    var t1 := Plus(Plus(Plus(Plus(v.h, Sum1(v.e)), Ch(v.e, v.f, v.g)), k), w);
    var t2 := Plus(Sum0(v.a), Maj(v.a, v.b, v.c));
    Working(Plus(t1, t2), v.a, v.b, v.c, Plus(v.d, t1), v.e, v.f, v.g)
  }

  /** The working variables after t rounds. */
  function Rounds(v: Working, block: Block, t: nat): Working
    requires t <= 64
  {
    if t == 0 then v
    else Round(Rounds(v, block, t - 1), RoundConstant(t - 1), Schedule(block, t - 1))
  }

  function Start(h: Hash): Working {
    Working(h[0], h[1], h[2], h[3], h[4], h[5], h[6], h[7])
  }

  function AddInto(h: Hash, v: Working): Hash {
    [Plus(h[0], v.a), Plus(h[1], v.b), Plus(h[2], v.c), Plus(h[3], v.d),
     Plus(h[4], v.e), Plus(h[5], v.f), Plus(h[6], v.g), Plus(h[7], v.h)]
  }

  function Compress(h: Hash, block: Block): Hash {
    AddInto(h, Rounds(Start(h), block, 64))
  }

  // ----- padding

  /** The number of bits in so many bytes, modulo 2^64. */
  function BitCount(bytes: nat): (c: nat)
    ensures c < TWO64
  {
    8 * bytes % TWO64
  }

  /** The length field: the bit count as eight bytes, most significant first. */
  function LengthField(bytes: nat): (f: Bytes)
    ensures |f| == 8
  {
    DigitsAreDigits(256, BitCount(bytes), 8);
    ToBytes(Digits(256, BitCount(bytes), 8))
  }

  /** The number of zero bytes: the least one that brings the length to 56 modulo 64. */
  function ZeroCount(bytes: nat): (k: nat)
    ensures k < 64 && (bytes + 1 + k) % 64 == 56
  {
    (119 - bytes % 64) % 64
  }

  lemma BlockFilled(bytes: nat, k: nat)
    requires (bytes + 1 + k) % 64 == 56
    ensures (bytes + 1 + k + 8) % 64 == 0
  {
  }

  /** What follows a message of so many bytes. */
  function Tail(bytes: nat): (t: Bytes)
    ensures 9 <= |t| <= 72 && (bytes + |t|) % 64 == 0
  {
    BlockFilled(bytes, ZeroCount(bytes));
    [0x80] + Zeros(ZeroCount(bytes)) + LengthField(bytes)
  }

  function Pad(message: Bytes): (p: Bytes)
    ensures |p| % 64 == 0
  {
    message + Tail(|message|)
  }

  lemma PowersOf256()
    ensures Pow(256, 8) == TWO64
  {
    assert Pow(256, 4) == 0x1_0000_0000;
    assert Pow(256, 6) == 0x1_0000_0000_0000;
  }

  lemma LengthFieldInjective(m: nat, n: nat)
    requires LengthField(m) == LengthField(n)
    ensures BitCount(m) == BitCount(n)
  {
    hide BitCount;
    var c, d := BitCount(m), BitCount(n);
    DigitsAreDigits(256, c, 8);
    DigitsAreDigits(256, d, 8);
    forall i | 0 <= i < 8 ensures Digits(256, c, 8)[i] == Digits(256, d, 8)[i] {
      assert LengthField(m)[i] as nat == Digits(256, c, 8)[i];
      assert LengthField(n)[i] as nat == Digits(256, d, 8)[i];
    }
    assert Digits(256, c, 8) == Digits(256, d, 8);
    PowersOf256();
    ValueOfDigits(256, c, 8);
    ValueOfDigits(256, d, 8);
  }

  lemma LengthFieldValue(bytes: nat)
    ensures Value(256, Nats(LengthField(bytes))) == 8 * bytes % TWO64
  {
    PowersOf256();
    ValueOfDigits(256, BitCount(bytes), 8);
  }

  /** The bytes of a padded message (section 5.1.1): the message, a marker, zeros up to the last eight. */
  predicate PaddingOf(message: Bytes, p: Bytes) {
    && |p| % 64 == 0 && |message| + 9 <= |p| < |message| + 73
    && message <= p && p[|message|] == 0x80
    && (forall i :: |message| < i < |p| - 8 ==> p[i] == 0)
    && Value(256, Nats(p[|p| - 8..])) == 8 * |message| % 0x1_0000_0000_0000_0000
  }

  lemma PadIsPadding(message: Bytes)
    ensures PaddingOf(message, Pad(message))
  {
    hide LengthField, ZeroCount, Value;
    LengthFieldValue(|message|);
    var p := Pad(message);
    assert p[|p| - 8..] == LengthField(|message|);
  }

  lemma NatsInjective(a: Bytes, b: Bytes)
    requires Nats(a) == Nats(b)
    ensures a == b
  {
    assert forall i :: 0 <= i < |a| ==> Nats(a)[i] == a[i] as nat && Nats(b)[i] == b[i] as nat;
  }

  lemma SameEnd(a: Bytes, b: Bytes)
    requires |a| == |b| && Value(256, Nats(a)) == Value(256, Nats(b))
    ensures a == b
  {
    hide Value;
    ValueInjective(256, Nats(a), Nats(b));
    NatsInjective(a, b);
  }

  lemma PaddingParts(message: Bytes, p: Bytes)
    requires PaddingOf(message, p)
    ensures p == message + ([0x80] + (Zeros(|p| - 9 - |message|) + p[|p| - 8..]))
  {
    hide Value;
  }

  lemma PaddingUnique(message: Bytes, p: Bytes, q: Bytes)
    requires PaddingOf(message, p) && PaddingOf(message, q)
    ensures p == q
  {
    hide Value, Zeros;
    assert |p| == |q|;
    SameEnd(p[|p| - 8..], q[|q| - 8..]);
    PaddingParts(message, p);
    PaddingParts(message, q);
  }

  /** Those are the only such bytes: the least number of zeros, and the length in bits, most significant byte first. */
  lemma PadExactly(message: Bytes, p: Bytes)
    ensures p == Pad(message) <==> PaddingOf(message, p)
  {
    hide Pad, PaddingOf;
    PadIsPadding(message);
    if PaddingOf(message, p) {
      PaddingUnique(message, p, Pad(message));
    }
  }

  /** Two different messages of any lengths are never padded to the same bytes. */
  lemma PadInjective(m: Bytes, n: Bytes)
    requires Pad(m) == Pad(n)
    ensures m == n
  {
    hide LengthField, ZeroCount;
    var p := Pad(m);
    assert p[|p| - 8..] == LengthField(|m|);
    assert Pad(n)[|p| - 8..] == LengthField(|n|);
    LengthFieldInjective(|m|, |n|);
    CloseLengths(|m|, |n|);
    assert p[..|m|] == m && Pad(n)[..|n|] == n;
  }

  lemma CloseLengths(m: nat, n: nat)
    requires BitCount(m) == BitCount(n) && -64 < m - n < 64
    ensures m == n
  {
    var q, r := 8 * m / TWO64, 8 * n / TWO64;
    assert 8 * m - 8 * n == (q - r) * TWO64;
  }

  // ----- the whole hash

  function WordBytes(w: Word): (b: Bytes)
    ensures |b| == 4
  {
    [ByteAbove(w, 24), ByteAbove(w, 16), ByteAbove(w, 8), ByteAbove(w, 0)]
  }

  lemma BitsOfByte(x: bv8)
    ensures (x as Byte) as bv8 == x
    ensures (x as Byte) as int == x as int
  {
  }

  lemma ShiftedFields(x0: bv8, x1: bv8, x2: bv8, x3: bv8)
    ensures ((x0 as Word << 24) | (x1 as Word << 16) | (x2 as Word << 8) | (x3 as Word)) as int ==
            x0 as int * 0x100_0000 + x1 as int * 0x1_0000 + x2 as int * 0x100 + x3 as int
  {
  }

  lemma FieldsOf(x0: bv8, x1: bv8, x2: bv8, x3: bv8, w: Word)
    requires w == (x0 as Word << 24) | (x1 as Word << 16) | (x2 as Word << 8) | (x3 as Word)
    ensures w as int == x0 as int * 0x100_0000 + x1 as int * 0x1_0000 + x2 as int * 0x100 + x3 as int
  {
    ShiftedFields(x0, x1, x2, x3);
  }

  lemma PackedFields(x0: bv8, x1: bv8, x2: bv8, x3: bv8, w: Word)
    requires w == Pack(x0, x1, x2, x3)
    ensures w == (x0 as Word << 24) | (x1 as Word << 16) | (x2 as Word << 8) | (x3 as Word)
  {
  }

  /** The shifts and ors of a load make the big-endian number of any four bytes. */
  lemma LoadIsBigEndian(x0: bv8, x1: bv8, x2: bv8, x3: bv8, w: Word)
    requires w == Load(x0 as Byte, x1 as Byte, x2 as Byte, x3 as Byte)
    ensures w as int == x0 as int * 0x100_0000 + x1 as int * 0x1_0000 + x2 as int * 0x100 + x3 as int
  {
    hide Pack;
    BitsOfByte(x0);
    BitsOfByte(x1);
    BitsOfByte(x2);
    BitsOfByte(x3);
    PackedFields(x0, x1, x2, x3, w);
    FieldsOf(x0, x1, x2, x3, w);
  }

  /** Storing a loaded word gives its four bytes back. */
  lemma StoreUndoesLoad(x0: bv8, x1: bv8, x2: bv8, x3: bv8)
    ensures WordBytes(Load(x0 as Byte, x1 as Byte, x2 as Byte, x3 as Byte)) ==
            [x0 as Byte, x1 as Byte, x2 as Byte, x3 as Byte]
  {
    BitsOfByte(x0);
    BitsOfByte(x1);
    BitsOfByte(x2);
    BitsOfByte(x3);
  }

  function Serialize(words: seq<Word>): (b: Bytes)
    ensures |b| == 4 * |words|
  {
    if words == [] then [] else Serialize(words[..|words| - 1]) + WordBytes(words[|words| - 1])
  }

  function Sha256Of(message: Bytes): (digest: Bytes)
    ensures |digest| == 32
  {
    Serialize(Fold(Compress, InitialHash(), Pad(message)))
  }
}
