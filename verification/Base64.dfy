/**
 The base64 and base64url codec of src/auth/JWT.cpp (RFC 4648 sections 4 and 5). A byte string
 is read as one big-endian number: encoding writes that number, shifted left to a multiple of
 six bits, in base 64; decoding writes the shifted-back number in base 256.
 */
module Base64 {
  import opened Octets
  import opened Radix

  // ----- the alphabets

  /** Character i of the table of section 4. */
  function SextetChar(i: nat): Byte
    requires i < 64
  {
    if i < 26 then (i + 65) as Byte        // 'A'..'Z'
    else if i < 52 then (i + 71) as Byte   // 'a'..'z'
    else if i < 62 then (i - 4) as Byte    // '0'..'9'
    else if i == 62 then 43 else 47        // '+', '/'
  }

  /** The position of a character in the table, -1 for any other character. */
  function Index(c: Byte): (i: int)
    ensures -1 <= i < 64
  {
    if 65 <= c < 91 then c as int - 65
    else if 97 <= c < 123 then c as int - 71
    else if 48 <= c < 58 then c as int + 4
    else if c == 43 then 62 else if c == 47 then 63 else -1
  }

  /** From the table of section 4 to that of section 5. */
  function ToUrlChar(c: Byte): Byte {
    if c == 43 then 45 else if c == 47 then 95 else c
  }

  function FromUrlChar(c: Byte): Byte {
    if c == 45 then 43 else if c == 95 then 47 else c
  }

  predicate IsUrlChar(c: Byte) {
    c != 43 && c != 47 && Index(FromUrlChar(c)) >= 0
  }

  function Chars(sextets: seq<nat>): (t: Bytes)
    requires AreDigits(64, sextets)
    ensures |t| == |sextets|
  {
    seq(|sextets|, i requires 0 <= i < |sextets| => SextetChar(sextets[i]))
  }

  /** The length of the longest prefix in the alphabet. */
  function Prefix(t: Bytes): (m: nat)
    ensures m <= |t|
    ensures forall i :: 0 <= i < m ==> Index(t[i]) >= 0
    ensures m < |t| ==> Index(t[m]) < 0
  {
    if t == [] || Index(t[0]) < 0 then 0 else Prefix(t[1..]) + 1
  }

  function Sextets(t: Bytes): (s: seq<nat>)
    requires forall i :: 0 <= i < |t| ==> Index(t[i]) >= 0
    ensures |s| == |t| && AreDigits(64, s)
  {
    seq(|t|, i requires 0 <= i < |t| => Index(t[i]))
  }

  // ----- encoding and decoding as change of base

  /** The number of characters for n bytes: the ceiling of 8n/6. */
  function EncodedLength(n: nat): nat { (8 * n + 5) / 6 }

  /** The number of bytes in m characters: the floor of 6m/8. */
  function DecodedLength(m: nat): nat { 6 * m / 8 }

  /** 2 to the number of zero bits that fill the last character. */
  function Fill(n: nat): nat {
    if n % 3 == 0 then 1 else if n % 3 == 1 then 16 else 4
  }

  /** 2 to the number of bits left over after the last whole byte. */
  function Leftover(m: nat): nat {
    if m % 4 == 0 then 1 else if m % 4 == 1 then 64 else if m % 4 == 2 then 16 else 4
  }

  /** The number sextets spell, without the bits of an unfinished byte. */
  function Spelled(d: seq<nat>): nat {
    Value(64, d) / Leftover(|d|)
  }

  function Encode(s: Bytes): (t: Bytes)
    ensures |t| == EncodedLength(|s|)
  {
    var v := Value(256, Nats(s)) * Fill(|s|);
    DigitsAreDigits(64, v, EncodedLength(|s|));
    Chars(Digits(64, v, EncodedLength(|s|)))
  }

  function Decode(t: Bytes): (s: Bytes)
    ensures |s| == DecodedLength(Prefix(t))
  {
    var m := Prefix(t);
    var v := Spelled(Sextets(t[..m]));
    DigitsAreDigits(256, v, DecodedLength(m));
    ToBytes(Digits(256, v, DecodedLength(m)))
  }

  function ToUrl(t: Bytes): Bytes {
    if t == [] || t[0] == 61 then [] else [ToUrlChar(t[0])] + ToUrl(t[1..])  // stops at '='
  }

  function FromUrlChars(t: Bytes): (u: Bytes)
    ensures |u| == |t| && forall i :: 0 <= i < |t| ==> u[i] == FromUrlChar(t[i])
  {
    seq(|t|, i requires 0 <= i < |t| => FromUrlChar(t[i]))
  }

  /** The '=' characters that complete a group of four. */
  function Padding(n: nat): Bytes {
    if n % 4 == 2 then [61, 61] else if n % 4 == 3 then [61] else []
  }

  function FromUrl(t: Bytes): Bytes {
    FromUrlChars(t) + Padding(|t|)
  }

  function UrlEncode(s: Bytes): Bytes { ToUrl(Encode(s)) }

  function UrlDecode(t: Bytes): Bytes { Decode(FromUrl(t)) }

  // ----- how many bits fit

  lemma GroupOfThree(n: nat)
    ensures EncodedLength(n + 3) == EncodedLength(n) + 4 && Fill(n + 3) == Fill(n)
  {
    assert (n + 3) % 3 == n % 3;
  }

  lemma GroupOfFour(m: nat)
    ensures DecodedLength(m + 4) == DecodedLength(m) + 3 && Leftover(m + 4) == Leftover(m)
  {
    assert (m + 4) % 4 == m % 4;
  }

  lemma {:induction false} EncodedCapacity(n: nat)
    ensures Pow(256, n) * Fill(n) == Pow(64, EncodedLength(n))
  {
    if n < 3 {
      assert Pow(256, 0) == 1 == Pow(64, 0);
      assert Pow(256, 1) == 256 && Pow(64, 2) == 4096;
      assert Pow(256, 2) == 65536 && Pow(64, 3) == 262144;
    } else {
      hide Fill, EncodedLength, Pow;
      EncodedCapacity(n - 3);
      ThreeMore(n - 3);
      FourMore(EncodedLength(n - 3));
      GroupOfThree(n - 3);
      Scale(Pow(256, n - 3), Fill(n));
    }
  }

  lemma {:induction false} DecodedCapacity(m: nat)
    ensures Pow(256, DecodedLength(m)) * Leftover(m) == Pow(64, m)
  {
    if m < 4 {
      assert Pow(256, 0) == 1 == Pow(64, 0);
      assert Pow(64, 1) == 64;
      assert Pow(256, 1) == 256 && Pow(64, 2) == 4096;
      assert Pow(256, 2) == 65536 && Pow(64, 3) == 262144;
    } else {
      hide Leftover, DecodedLength, Pow;
      DecodedCapacity(m - 4);
      ThreeMore(DecodedLength(m - 4));
      FourMore(m - 4);
      GroupOfFour(m - 4);
      Scale(Pow(256, DecodedLength(m - 4)), Leftover(m));
    }
  }

  lemma Scale(a: nat, f: nat)
    ensures a * 0x100_0000 * f == a * f * 0x100_0000
  {
  }

  lemma ThreeMore(n: nat)
    ensures Pow(256, n + 3) == Pow(256, n) * 0x100_0000
  {
    assert Pow(256, n + 3) == Pow(256, n + 2) * 256;
    assert Pow(256, n + 2) == Pow(256, n + 1) * 256;
  }

  lemma FourMore(m: nat)
    ensures Pow(64, m + 4) == Pow(64, m) * 0x100_0000
  {
    assert Pow(64, m + 4) == Pow(64, m + 3) * 64;
    assert Pow(64, m + 3) == Pow(64, m + 2) * 64;
    assert Pow(64, m + 2) == Pow(64, m + 1) * 64;
  }

  lemma BelowTimes(v: nat, bound: nat, k: nat)
    requires v < bound && k > 0
    ensures v * k < bound * k
  {
    Below(v, bound, k);
  }

  // ----- characters and their positions

  lemma IndexOfChar(i: nat)
    requires i < 64
    ensures Index(SextetChar(i)) == i
    ensures FromUrlChar(ToUrlChar(SextetChar(i))) == SextetChar(i)
    ensures SextetChar(i) != 61 && IsUrlChar(ToUrlChar(SextetChar(i)))
  {
  }

  lemma Letters(i: nat)
    requires i < 26
    ensures "ABCDEFGHIJKLMNOPQRSTUVWXYZ"[i] as int == 65 + i
    ensures "abcdefghijklmnopqrstuvwxyz"[i] as int == 97 + i
  {
  }

  const TABLE: string :=
    "ABCDEFGHIJKLMNOPQRSTUVWXYZ" + "abcdefghijklmnopqrstuvwxyz" + "0123456789" + "+/"

  /** The characters are those of the source's table, in its order. */
  lemma TableOrder(i: nat)
    requires i < 64
    ensures |TABLE| == 64 && SextetChar(i) as int == TABLE[i] as int
  {
    if i < 26 {
      Letters(i);
    } else if i < 52 {
      Letters(i - 26);
    }
  }

  lemma CharOfIndex(c: Byte)
    requires IsUrlChar(c)
    ensures ToUrlChar(SextetChar(Index(FromUrlChar(c)))) == c
  {
  }

  lemma {:induction false} PrefixIs(t: Bytes, m: nat)
    requires m <= |t|
    requires forall i :: 0 <= i < m ==> Index(t[i]) >= 0
    requires m < |t| ==> Index(t[m]) < 0
    ensures Prefix(t) == m
  {
    if m == 0 {
    } else {
      PrefixIs(t[1..], m - 1);
    }
  }

  // ----- the URL form

  lemma {:induction false} ToUrlOfChars(d: seq<nat>)
    requires AreDigits(64, d)
    ensures |ToUrl(Chars(d))| == |d|
    ensures forall i :: 0 <= i < |d| ==> ToUrl(Chars(d))[i] == ToUrlChar(SextetChar(d[i]))
  {
    if d != [] {
      IndexOfChar(d[0]);
      assert Chars(d)[1..] == Chars(d[1..]);
      ToUrlOfChars(d[1..]);
    }
  }

  /** The characters of t are exactly those that decode to the sextets d. */
  lemma UrlDecodeOfSextets(t: Bytes, d: seq<nat>)
    requires |d| == |t| && AreDigits(64, d)
    requires forall i :: 0 <= i < |t| ==> Index(FromUrlChar(t[i])) == d[i]
    ensures Nats(UrlDecode(t)) == Digits(256, Spelled(d), DecodedLength(|d|))
  {
    var u, m := FromUrl(t), |t|;
    NoIndexOfPad();
    forall i | 0 <= i < m ensures Index(u[i]) == d[i] {
      assert u[i] == FromUrlChar(t[i]);
    }
    assert m < |u| ==> u[m] == 61;
    hide FromUrl, Index, FromUrlChar, Leftover, DecodedLength, Digits, Spelled;
    PrefixIs(u, m);
    assert Sextets(u[..m]) == d;
  }

  lemma NoIndexOfPad()
    ensures Index(61) < 0
  {
  }

  // ----- round trips

  /** The encoded number, and the characters that spell it. */
  lemma EncodedSextets(s: Bytes) returns (d: seq<nat>)
    ensures AreDigits(64, d) && |d| == EncodedLength(|s|)
    ensures Value(64, d) == Value(256, Nats(s)) * Fill(|s|)
    ensures Encode(s) == Chars(d)
  {
    var n := |s|;
    var value := Value(256, Nats(s));
    d := Digits(64, value * Fill(n), EncodedLength(n));
    DigitsAreDigits(64, value * Fill(n), EncodedLength(n));
    ValueBound(256, Nats(s));
    BelowTimes(value, Pow(256, n), Fill(n));
    EncodedCapacity(n);
    ValueOfDigits(64, value * Fill(n), EncodedLength(n));
  }

  /** Three bytes take four characters; one or two bytes more take two or three. */
  lemma GroupLengths(k: nat)
    ensures EncodedLength(3 * k) == 4 * k && EncodedLength(3 * k + 1) == 4 * k + 2
    ensures EncodedLength(3 * k + 2) == 4 * k + 3
    ensures DecodedLength(4 * k) == 3 * k && DecodedLength(4 * k + 2) == 3 * k + 1
    ensures DecodedLength(4 * k + 3) == 3 * k + 2
  {
    ModUnique(8 * (3 * k) + 5, 6, 4 * k, 5);
    ModUnique(8 * (3 * k + 1) + 5, 6, 4 * k + 2, 1);
    ModUnique(8 * (3 * k + 2) + 5, 6, 4 * k + 3, 3);
    ModUnique(6 * (4 * k), 8, 3 * k, 0);
    ModUnique(6 * (4 * k + 2), 8, 3 * k + 1, 4);
    ModUnique(6 * (4 * k + 3), 8, 3 * k + 2, 2);
  }

  lemma GroupFills(k: nat)
    ensures Fill(3 * k) == Leftover(4 * k) == 1
    ensures Fill(3 * k + 1) == Leftover(4 * k + 2) == 16
    ensures Fill(3 * k + 2) == Leftover(4 * k + 3) == 4
  {
    ModUnique(3 * k, 3, k, 0);
    ModUnique(3 * k + 1, 3, k, 1);
    ModUnique(3 * k + 2, 3, k, 2);
    ModUnique(4 * k, 4, k, 0);
    ModUnique(4 * k + 2, 4, k, 2);
    ModUnique(4 * k + 3, 4, k, 3);
  }

  lemma FillIsLeftover(n: nat, value: nat)
    ensures EncodedLength(n) % 4 != 1
    ensures DecodedLength(EncodedLength(n)) == n
    ensures value * Fill(n) / Leftover(EncodedLength(n)) == value
    ensures value * Fill(n) % Leftover(EncodedLength(n)) == 0
  {
    hide Fill, Leftover, EncodedLength, DecodedLength;
    GroupLengths(n / 3);
    GroupFills(n / 3);
    if n % 3 == 0 {} else if n % 3 == 1 {} else {}
  }

  /** The decoder gives back every byte string. */
  lemma RoundTrip(s: Bytes)
    ensures UrlDecode(UrlEncode(s)) == s
  {
    hide Encode, Decode, FromUrl, Fill, Leftover, EncodedLength, DecodedLength;
    var d := EncodedSextets(s);
    var t := UrlEncode(s);
    ToUrlOfChars(d);
    forall i | 0 <= i < |d| ensures Index(FromUrlChar(t[i])) == d[i] {
      IndexOfChar(d[i]);
    }
    UrlDecodeOfSextets(t, d);
    FillIsLeftover(|s|, Value(256, Nats(s)));
    DigitsOfValue(256, Nats(s));
    SameNats(UrlDecode(t), s);
  }

  lemma SameNats(a: Bytes, b: Bytes)
    requires Nats(a) == Nats(b)
    ensures a == b
  {
    forall i | 0 <= i < |a| ensures a[i] == b[i] {
      assert Nats(a)[i] == a[i] as nat && Nats(b)[i] == b[i] as nat;
    }
  }

  function UrlIndex(c: Byte): (i: nat)
    requires IsUrlChar(c)
    ensures i == Index(FromUrlChar(c)) < 64
  {
    Index(FromUrlChar(c))
  }

  /** What the base64url characters of t are worth. */
  function UrlSextets(t: Bytes): (d: seq<nat>)
    requires forall i :: 0 <= i < |t| ==> IsUrlChar(t[i])
    ensures |d| == |t| && AreDigits(64, d)
  {
    seq(|t|, i requires 0 <= i < |t| => UrlIndex(t[i]))
  }

  /** The text forms the encoder produces. */
  predicate Canonical(t: Bytes) {
    && (forall i :: 0 <= i < |t| ==> IsUrlChar(t[i]))
    && |t| % 4 != 1
    && Value(64, UrlSextets(t)) % Leftover(|t|) == 0
  }

  lemma EncodedIsCanonical(s: Bytes)
    ensures Canonical(UrlEncode(s))
  {
    hide Encode, Fill, Leftover, EncodedLength, Value, ToUrlChar, SextetChar;
    var d := EncodedSextets(s);
    var t := UrlEncode(s);
    ToUrlOfChars(d);
    forall i | 0 <= i < |d| ensures IsUrlChar(t[i]) && Index(FromUrlChar(t[i])) == d[i] {
      IndexOfChar(d[i]);
    }
    assert UrlSextets(t) == d;
    FillIsLeftover(|s|, Value(256, Nats(s)));
  }

  lemma LeftoverIsFill(m: nat, value: nat)
    requires m % 4 != 1 && value % Leftover(m) == 0
    ensures EncodedLength(DecodedLength(m)) == m
    ensures value / Leftover(m) * Fill(DecodedLength(m)) == value
  {
    hide Fill, Leftover, EncodedLength, DecodedLength;
    GroupLengths(m / 4);
    GroupFills(m / 4);
    if m % 4 == 0 {} else if m % 4 == 2 {} else {}
  }

  lemma BelowQuotient(value: nat, bound: nat, k: nat)
    requires k > 0 && value < bound * k
    ensures value / k < bound
  {
    DivModMeaning(value, k);
    QuotientBelow(value, k, bound);
  }

  /** Encoding what was decoded gives the text back exactly for the texts the encoder produces. */
  lemma ConverseRoundTrip(t: Bytes)
    ensures UrlEncode(UrlDecode(t)) == t <==> Canonical(t)
  {
    hide Encode, Decode, FromUrl, Fill, Leftover, EncodedLength, DecodedLength, Digits, Value;
    if UrlEncode(UrlDecode(t)) == t {
      EncodedIsCanonical(UrlDecode(t));
    }
    if Canonical(t) {
      var d, m := UrlSextets(t), |t|;
      var s, value := UrlDecode(t), Value(64, d);
      UrlDecodeOfSextets(t, d);
      ValueBound(64, d);
      DecodedCapacity(m);
      BelowQuotient(value, Pow(256, DecodedLength(m)), Leftover(m));
      ValueOfDigits(256, value / Leftover(m), DecodedLength(m));
      LeftoverIsFill(m, value);
      var e := EncodedSextets(s);
      ValueInjective(64, d, e);
      ToUrlOfChars(d);
      forall i | 0 <= i < m ensures UrlEncode(s)[i] == t[i] {
        CharOfIndex(t[i]);
      }
    }
  }

  // ----- the alphabet of section 5, and the bits, written out

  /** The table of section 4 with its last two characters exchanged for others. */
  const URL_TABLE: string := TABLE[..62] + "-_"

  lemma UrlTable(i: nat)
    requires i < 64
    ensures |URL_TABLE| == 64 && ToUrlChar(SextetChar(i)) as int == URL_TABLE[i] as int && SextetChar(i) != 61
  {
    TableOrder(i);
  }

  function UrlChar(i: nat): Byte
    requires i < 64
  {
    (URL_TABLE[i] as int % 256) as Byte
  }

  lemma UrlCharIs(i: nat)
    requires i < 64
    ensures UrlChar(i) == ToUrlChar(SextetChar(i))
  {
    UrlTable(i);
  }

  function UrlChars(sextets: seq<nat>): (t: Bytes)
    requires AreDigits(64, sextets)
    ensures |t| == |sextets|
  {
    seq(|sextets|, i requires 0 <= i < |sextets| => UrlChar(sextets[i]))
  }

  lemma ToUrlText(d: seq<nat>)
    requires AreDigits(64, d)
    ensures ToUrl(Chars(d)) == UrlChars(d)
  {
    hide SextetChar, ToUrlChar, ToUrl, UrlChar;
    ToUrlOfChars(d);
    forall i | 0 <= i < |d| ensures ToUrlChar(Chars(d)[i]) == UrlChars(d)[i] {
      UrlCharIs(d[i]);
    }
  }

  /** The sextets of a text are the bits of the bytes in groups of six, zeros behind the last; the table names them. */
  lemma UrlEncodedAs(s: Bytes, d: seq<nat>)
    requires AreDigits(64, d) && |d| == (4 * |s| + 2) / 3
    requires Value(64, d) == Value(256, Nats(s)) * (if |s| % 3 == 0 then 1 else if |s| % 3 == 1 then 16 else 4)
    ensures UrlEncode(s) == UrlChars(d)
  {
    DigitsOfValue(64, d);
    CeilingLength(|s|);
    hide Value, EncodedLength, SextetChar;
    assert Encode(s) == Chars(d);
    ToUrlText(d);
  }

  lemma CeilingLength(n: nat)
    ensures EncodedLength(n) == (4 * n + 2) / 3
  {
  }

  lemma ValueOfOne(base: nat, x: nat)
    ensures Value(base, [x]) == x
  {
    assert [x][..0] == [];
  }

  lemma ValueOfFour(base: nat, a: nat, b: nat, c: nat, d: nat)
    ensures Value(base, [a, b]) == a * base + b
    ensures Value(base, [a, b, c]) == (a * base + b) * base + c
    ensures Value(base, [a, b, c, d]) == ((a * base + b) * base + c) * base + d
  {
    ValueOfOne(base, a);
    ValueAppend(base, [a], b);
    ValueAppend(base, [a, b], c);
    ValueAppend(base, [a, b, c], d);
    hide Value;
    assert [a] + [b] == [a, b] && [a, b] + [c] == [a, b, c] && [a, b, c] + [d] == [a, b, c, d];
  }

  /** Three bytes whose text has both characters of the URL alphabet, twice. */
  lemma DashExample()
    ensures UrlEncode([0xfb, 0xef, 0xff]) == Ascii("--__")
  {
    ValueOfFour(64, 62, 62, 63, 63);
    ValueOfFour(256, 0xfb, 0xef, 0xff, 0);
    hide Value, UrlEncode, UrlChars;
    assert Nats([0xfb, 0xef, 0xff]) == [0xfb, 0xef, 0xff];
    UrlEncodedAs([0xfb, 0xef, 0xff], [62, 62, 63, 63]);
    DashChars();
  }

  lemma DashChars()
    ensures AreDigits(64, [62, 62, 63, 63]) && UrlChars([62, 62, 63, 63]) == Ascii("--__")
  {
    UrlCharIs(62);
    UrlCharIs(63);
    hide UrlChar;
    assert UrlChars([62, 62, 63, 63]) == [45, 45, 95, 95] == Ascii("--__");
  }

  /** One byte: its last two bits, and four zeros behind them. */
  lemma OneByteExample()
    ensures UrlEncode([0x66]) == Ascii("Zg")
  {
    ValueOfFour(64, 25, 32, 0, 0);
    ValueOfOne(256, 0x66);
    hide Value, UrlEncode, UrlChars;
    assert Nats([0x66]) == [0x66];
    UrlEncodedAs([0x66], [25, 32]);
    OneByteChars();
  }

  lemma OneByteChars()
    ensures AreDigits(64, [25, 32]) && UrlChars([25, 32]) == Ascii("Zg")
  {
    UrlCharIs(25);
    UrlCharIs(32);
    hide UrlChar;
    assert UrlChars([25, 32]) == [90, 103] == Ascii("Zg");
  }
}
