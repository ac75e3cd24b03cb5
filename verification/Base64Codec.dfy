/** The accumulator loops of src/auth/JWT.cpp, proved against Base64. */
module Base64Codec {
  import opened Machine
  import opened Octets
  import opened Radix
  import opened Base64

  /** 2^k, for the even shifts of the accumulators. */
  function Two(k: nat): (p: nat)
    ensures p > 0
  {
    if k == 0 then 1 else if k == 2 then 4 else if k == 4 then 16 else if k == 6 then 64
    else if k == 8 then 256 else if k == 10 then 1024 else 4096
  }

  // ----- arithmetic of the low bits

  // A multiple of 2^32 cannot be seen in the low bits.

  lemma Unseen64(x: int, t: int)
    ensures (x + t * 0x1_0000_0000) % 64 == x % 64
  {
    ModUnique(x + t * 0x1_0000_0000, 64, x / 64 + t * 0x4000000, x % 64);
  }

  lemma Unseen256(x: int, t: int)
    ensures (x + t * 0x1_0000_0000) % 256 == x % 256
  {
    ModUnique(x + t * 0x1_0000_0000, 256, x / 256 + t * 0x1000000, x % 256);
  }

  lemma Unseen1024(x: int, t: int)
    ensures (x + t * 0x1_0000_0000) % 1024 == x % 1024
  {
    ModUnique(x + t * 0x1_0000_0000, 1024, x / 1024 + t * 0x400000, x % 1024);
  }

  lemma Unseen4096(x: int, t: int)
    ensures (x + t * 0x1_0000_0000) % 4096 == x % 4096
  {
    ModUnique(x + t * 0x1_0000_0000, 4096, x / 4096 + t * 0x100000, x % 4096);
  }

  lemma Unseen(x: int, t: int, k: nat)
    requires k in {6, 8, 10, 12}
    ensures (x + t * TWO32) % Two(k) == x % Two(k)
  {
    Unseen64(x, t);
    Unseen256(x, t);
    Unseen1024(x, t);
    Unseen4096(x, t);
  }

  lemma WrapKeepsLowBits(x: int, k: nat)
    requires k in {6, 8, 10, 12}
    ensures x % TWO32 % Two(k) == x % Two(k)
  {
    Unseen(x % TWO32, x / TWO32, k);
    assert x % TWO32 + x / TWO32 * TWO32 == x;
  }

  lemma Under4(val: int, m: int, c: nat)
    requires (m == 64 || m == 256) && c < m
    ensures m == 64 ==> (val * 64 + c) % 256 == val % 4 * 64 + c
    ensures m == 256 ==> (val * 256 + c) % 1024 == val % 4 * 256 + c
  {
    if m == 64 {
      ModUnique(val * 64 + c, 256, val / 4, val % 4 * 64 + c);
    } else {
      ModUnique(val * 256 + c, 1024, val / 4, val % 4 * 256 + c);
    }
  }

  lemma Under16(val: int, m: int, c: nat)
    requires (m == 64 || m == 256) && c < m
    ensures m == 64 ==> (val * 64 + c) % 1024 == val % 16 * 64 + c
    ensures m == 256 ==> (val * 256 + c) % 4096 == val % 16 * 256 + c
  {
    if m == 64 {
      ModUnique(val * 64 + c, 1024, val / 16, val % 16 * 64 + c);
    } else {
      ModUnique(val * 256 + c, 4096, val / 16, val % 16 * 256 + c);
    }
  }

  lemma Under64(val: int, c: nat)
    requires c < 64
    ensures (val * 64 + c) % 4096 == val % 64 * 64 + c
  {
    ModUnique(val * 64 + c, 4096, val / 64, val % 64 * 64 + c);
  }

  lemma ByteUnderLowBits(val: nat, c: nat, k: nat)
    requires k in {0, 2, 4} && c < 256
    ensures (val * 256 + c) % Two(k + 8) == val % Two(k) * 256 + c
  {
    Under4(val, 256, c);
    Under16(val, 256, c);
  }

  // The low bits above a shift, and below it.

  lemma Over256(val: int)
    ensures val % 256 == val / 4 % 64 * 4 + val % 4
  {
    var q := val / 4;
    ModUnique(val, 256, q / 64, q % 64 * 4 + val % 4);
  }

  lemma Over1024(val: int)
    ensures val % 1024 == val / 16 % 64 * 16 + val % 16
  {
    var q := val / 16;
    ModUnique(val, 1024, q / 64, q % 64 * 16 + val % 16);
  }

  lemma Over4096(val: int)
    ensures val % 4096 == val / 64 % 64 * 64 + val % 64
  {
    var q := val / 64;
    ModUnique(val, 4096, q / 64, q % 64 * 64 + val % 64);
  }

  lemma OverByte1024(val: int)
    ensures val % 1024 == val / 4 % 256 * 4 + val % 4
  {
    var q := val / 4;
    ModUnique(val, 1024, q / 256, q % 256 * 4 + val % 4);
  }

  lemma OverByte4096(val: int)
    ensures val % 4096 == val / 16 % 256 * 16 + val % 16
  {
    var q := val / 16;
    ModUnique(val, 4096, q / 256, q % 256 * 16 + val % 16);
  }

  lemma SplitLowBits(val: nat, k: nat)
    requires k in {6, 8, 10, 12}
    ensures val % Two(k) == val / Two(k - 6) % 64 * Two(k - 6) + val % Two(k - 6)
  {
    Over256(val);
    Over1024(val);
    Over4096(val);
  }

  /** Six bits of an accumulator, above the lowest k. */
  function SixBits(val: nat, k: nat): (q: nat)
    ensures q < 64
  {
    val / Two(k) % 64
  }

  // ----- encoding

  /** Of the bits of s, all but the lowest `held` are in the sextets d; those are the low bits of val. */
  predicate Encoding(s: seq<nat>, d: seq<nat>, val: nat, held: nat) {
    && held <= 12
    && 8 * |s| == 6 * |d| + held
    && Value(256, s) == Value(64, d) * Two(held) + val % Two(held)
  }

  lemma TwoGrows(k: nat)
    ensures k in {0, 2, 4, 6} ==> Two(k + 6) == 64 * Two(k)
    ensures k in {0, 2, 4} ==> Two(k + 8) == 256 * Two(k)
  {
  }

  /** The higher bits move up with the lower ones. */
  lemma ShiftBits(x: int, t: int, r: int, base: int, u: int, c: int)
    requires u == base * t
    ensures (x * t + r) * base + c == x * u + (r * base + c)
  {
    assert x * u == x * t * base;
  }

  /** The highest of the lower bits join the higher ones. */
  lemma MoveBits(x: int, base: int, q: int, t: int, u: int, r: int)
    requires u == base * t
    ensures x * u + (q * t + r) == (x * base + q) * t + r
  {
    assert x * u == x * base * t;
    assert (x * base + q) * t == x * base * t + q * t;
  }

  lemma ByteEnters(s: seq<nat>, d: seq<nat>, val: nat, held: nat, c: nat)
    requires Encoding(s, d, val, held) && held in {0, 2, 4} && c < 256
    ensures Encoding(s + [c], d, (val * 256 + c) % TWO32, held + 8)
  {
    hide Value, Two;
    ValueAppend(256, s, c);
    WrapKeepsLowBits(val * 256 + c, held + 8);
    ByteUnderLowBits(val, c, held);
    TwoGrows(held);
    ShiftBits(Value(64, d), Two(held), val % Two(held), 256, Two(held + 8), c);
  }

  lemma SextetLeaves(s: seq<nat>, d: seq<nat>, val: nat, held: nat)
    requires Encoding(s, d, val, held) && held in {6, 8, 10, 12}
    ensures Encoding(s, d + [SixBits(val, held - 6)], val, held - 6)
  {
    hide Value, Two, SixBits;
    var q := SixBits(val, held - 6);
    ValueAppend(64, d, q);
    SplitSixBits(val, held);
    TwoGrows(held - 6);
    MoveBits(Value(64, d), 64, q, Two(held - 6), Two(held), val % Two(held - 6));
  }

  lemma SplitSixBits(val: nat, held: nat)
    requires held in {6, 8, 10, 12}
    ensures val % Two(held) == SixBits(val, held - 6) * Two(held - 6) + val % Two(held - 6)
  {
    SplitLowBits(val, held);
    hide Two;
  }

  lemma LastSextet(s: seq<nat>, d: seq<nat>, val: nat, held: nat)
    requires Encoding(s, d, val, held) && held in {2, 4}
    ensures Value(64, d + [SixBits(val * 256 % TWO32, held + 2)]) == Value(256, s) * Two(6 - held)
  {
    hide Value, SixBits;
    ValueAppend(64, d, SixBits(val * 256 % TWO32, held + 2));
    LastBits(val, held);
    if held == 2 {} else {}
  }

  lemma LastBits(val: nat, held: nat)
    requires held in {2, 4}
    ensures SixBits(val * 256 % TWO32, held + 2) == val % Two(held) * Two(6 - held)
  {
    var y := val * 256 % TWO32;
    WrapKeepsLowBits(val * 256, held + 8);
    ByteUnderLowBits(val, 0, held);
    SplitLowBits(y, held + 8);
    if held == 2 {
      assert y % 1024 == val % 4 * 256;
    } else {
      assert y % 4096 == val % 16 * 256;
    }
  }

  lemma EncodingStarts()
    ensures Encoding([], [], 0, 0)
  {
  }

  lemma EncodedBits(n: nat, m: nat, held: nat)
    requires held in {0, 2, 4} && 8 * n == 6 * m + held
    ensures EncodedLength(n) == if held == 0 then m else m + 1
    ensures Fill(n) == if held == 0 then 1 else Two(6 - held)
    ensures Two(0) == 1
  {
    if held == 0 {} else if held == 2 {} else {}
  }

  /** The bits that are left fit the last character, and the text is complete. */
  lemma EncodingEnds(s: Bytes, d: seq<nat>, val: nat, held: nat)
    requires Encoding(Nats(s), d, val, held) && held in {0, 2, 4} && AreDigits(64, d)
    ensures var last := if held == 0 then d else d + [SixBits(val * 256 % TWO32, held + 2)];
            AreDigits(64, last) && Encode(s) == Chars(last)
  {
    hide Value, Two, Fill, EncodedLength, SixBits;
    EncodedBits(|s|, |d|, held);
    if held == 0 {
      EncodedIs(s, d);
    } else {
      LastSextet(Nats(s), d, val, held);
      EncodedIs(s, d + [SixBits(val * 256 % TWO32, held + 2)]);
    }
  }

  lemma EncodedIs(s: Bytes, d: seq<nat>)
    requires AreDigits(64, d) && |d| == EncodedLength(|s|) && Value(64, d) == Value(256, Nats(s)) * Fill(|s|)
    ensures Encode(s) == Chars(d)
  {
    DigitsOfValue(64, d);
    hide Value, Fill, EncodedLength;
  }

  method Base64Encode(input: Bytes) returns (out: Bytes)
    ensures out == Encode(input)
  {
    hide Two, SixBits, Encode, Encoding;
    EncodingStarts();
    out := [];
    var val: nat := 0;
    var valb := -6;
    ghost var d: seq<nat> := [];
    for i := 0 to |input|
      invariant valb in {-6, -4, -2} && val < TWO32
      invariant AreDigits(64, d) && out == Chars(d)
      invariant Encoding(Nats(input[..i]), d, val, valb + 6)
    {
      ByteEnters(Nats(input[..i]), d, val, valb + 6, input[i] as nat);
      assert Nats(input[..i + 1]) == Nats(input[..i]) + [input[i] as nat];
      val := (val * 256 + input[i] as nat) % TWO32;
      valb := valb + 8;
      while valb >= 0
        invariant valb in {-6, -4, -2, 0, 2, 4, 6}
        invariant AreDigits(64, d) && out == Chars(d)
        invariant Encoding(Nats(input[..i + 1]), d, val, valb + 6)
      {
        SextetLeaves(Nats(input[..i + 1]), d, val, valb + 6);
        var sextet: nat := SixBits(val, valb);
        out := out + [SextetChar(sextet)];
        d := d + [sextet];
        valb := valb - 6;
      }
    }
    assert input[..|input|] == input;
    EncodingEnds(input, d, val, valb + 6);
    if valb > -6 {
      out := out + [SextetChar(SixBits(val * 256 % TWO32, valb + 8))];
    }
  }

  // ----- decoding

  /** The value of a 32-bit signed integer after wrap-around. */
  function Wrap(x: int): (w: int)
    ensures -0x8000_0000 <= w < 0x8000_0000
  {
    (x + 0x8000_0000) % TWO32 - 0x8000_0000
  }

  /** Eight bits of an accumulator, above the lowest k. The shift is arithmetic. */
  function EightBits(val: int, k: nat): (b: nat)
    ensures b < 256
  {
    val / Two(k) % 256
  }

  lemma WrapPlus(x: int, c: int, k: nat)
    requires k in {6, 8, 10, 12}
    ensures (Wrap(x) + c) % Two(k) == (x + c) % Two(k)
  {
    var t := (x + 0x8000_0000) / TWO32;
    assert Wrap(x) + c == x + c + (-t) * TWO32;
    Unseen(x + c, -t, k);
  }

  /** Adding six bits to a wrapped shift stays within 32 bits. */
  lemma NoOverflow(x: int)
    ensures Wrap(x * 64) <= 0x8000_0000 - 64
  {
    WrapPlus(x * 64, 0, 6);
    Unseen64(0, x);
    var w := Wrap(x * 64);
    assert w % 64 == x * 64 % 64 == 0;
    hide Wrap;
    assert w == w / 64 * 64 && w / 64 < 0x200_0000;
  }

  lemma SextetUnderLowBits(val: int, c: nat, k: nat)
    requires k in {0, 2, 4, 6} && c < 64
    ensures (val * 64 + c) % Two(k + 6) == val % Two(k) * 64 + c
  {
    Under4(val, 64, c);
    Under16(val, 64, c);
    Under64(val, c);
  }

  lemma SplitOffByte(val: int, k: nat)
    requires k in {8, 10, 12}
    ensures val % Two(k) == EightBits(val, k - 8) * Two(k - 8) + val % Two(k - 8)
  {
    OverByte1024(val);
    OverByte4096(val);
  }

  /** Of the bits of d, all but the lowest `held` are in the bytes out; those are the low bits of val. */
  predicate Decoding(d: seq<nat>, out: Bytes, val: int, held: nat) {
    && held <= 12
    && 6 * |d| == 8 * |out| + held
    && Value(64, d) == Value(256, Nats(out)) * Two(held) + val % Two(held)
  }

  lemma DecodingStarts()
    ensures Decoding([], [], 0, 0)
  {
  }

  lemma SextetEnters(d: seq<nat>, out: Bytes, val: int, held: nat, c: nat)
    requires Decoding(d, out, val, held) && held in {0, 2, 4, 6} && c < 64
    ensures Decoding(d + [c], out, Wrap(val * 64) + c, held + 6)
  {
    hide Value, Two, Wrap;
    ValueAppend(64, d, c);
    WrapPlus(val * 64, c, held + 6);
    SextetUnderLowBits(val, c, held);
    TwoGrows(held);
    ShiftBits(Value(256, Nats(out)), Two(held), val % Two(held), 64, Two(held + 6), c);
  }

  lemma ByteLeaves(d: seq<nat>, out: Bytes, val: int, held: nat)
    requires Decoding(d, out, val, held) && held in {8, 10, 12}
    ensures Decoding(d, out + [EightBits(val, held - 8) as Byte], val, held - 8)
  {
    hide Value, Two, EightBits;
    var b := EightBits(val, held - 8);
    assert Nats(out + [b as Byte]) == Nats(out) + [b];
    ValueAppend(256, Nats(out), b);
    SplitOffByte(val, held);
    TwoGrows(held - 8);
    MoveBits(Value(256, Nats(out)), 256, b, Two(held - 8), Two(held), val % Two(held - 8));
  }

  lemma DecodedBits(m: nat, n: nat, held: nat)
    requires held in {0, 2, 4, 6} && 6 * m == 8 * n + held
    ensures n == DecodedLength(m) && Two(held) == Leftover(m)
  {
    if held == 0 {} else if held == 2 {} else if held == 4 {} else {}
  }

  /** Dividing by the weight of the bits that are left over cuts exactly these off. */
  lemma CutBits(v: nat, high: nat, low: int, held: nat)
    requires v == high * Two(held) + low % Two(held)
    ensures v / Two(held) == high
  {
    ModUnique(v, Two(held), high, low % Two(held));
  }

  lemma DecodingEnds(t: Bytes, out: Bytes, val: int, held: nat)
    requires held in {0, 2, 4, 6} && Decoding(Sextets(t[..Prefix(t)]), out, val, held)
    ensures out == Decode(t)
  {
    hide Two, Leftover, Value;
    var m := Prefix(t);
    DecodedBits(m, |out|, held);
    CutBits(Value(64, Sextets(t[..m])), Value(256, Nats(out)), val, held);
    DigitsOfValue(256, Nats(out));
    SameNats(out, Decode(t));
  }

  /** The table T of base64Decode. */
  method BuildTable() returns (table: array<int>)
    ensures fresh(table) && table.Length == 256
    ensures forall c: Byte :: table[c as int] == Index(c)
  {
    table := new int[256](_ => -1);
    for i := 0 to 64
      invariant forall c: Byte :: table[c as int] == if Index(c) < i then Index(c) else -1
    {
      IndexOfChar(i);
      table[SextetChar(i) as int] := i;
      forall c: Byte | Index(c) == i ensures c == SextetChar(i) {
      }
    }
  }

  method Base64Decode(input: Bytes) returns (out: Bytes)
    ensures out == Decode(input)
  {
    hide Two, EightBits, Decode, Decoding, Wrap;
    var table := BuildTable();
    DecodingStarts();
    out := [];
    var val, valb := 0, -8;
    var i := 0;
    while i < |input|
      invariant i <= |input| && valb in {-8, -6, -4, -2}
      invariant -0x8000_0000 <= val < 0x8000_0000
      invariant forall c: Byte :: table[c as int] == Index(c)
      invariant forall j :: 0 <= j < i ==> Index(input[j]) >= 0
      invariant Decoding(Sextets(input[..i]), out, val, valb + 8)
    {
      var c := input[i];
      if table[c as int] == -1 {
        break;
      }
      SextetEnters(Sextets(input[..i]), out, val, valb + 8, Index(c));
      assert Sextets(input[..i + 1]) == Sextets(input[..i]) + [Index(c)];
      NoOverflow(val);
      val := Wrap(val * 64) + table[c as int];
      valb := valb + 6;
      if valb >= 0 {
        ByteLeaves(Sextets(input[..i + 1]), out, val, valb + 8);
        out := out + [EightBits(val, valb) as Byte];
        valb := valb - 8;
      }
      i := i + 1;
    }
    PrefixIs(input, i);
    DecodingEnds(input, out, val, valb + 8);
  }

  // ----- the URL alphabet

  method ToBase64Url(base64: Bytes) returns (out: Bytes)
    ensures out == ToUrl(base64)
  {
    var chars := new Byte[|base64|](i requires 0 <= i < |base64| => base64[i]);
    for i := 0 to chars.Length
      invariant forall j :: 0 <= j < i ==> chars[j] == ToUrlChar(base64[j])
      invariant forall j :: i <= j < chars.Length ==> chars[j] == base64[j]
    {
      if chars[i] == 43 {
        chars[i] := 45;
      } else if chars[i] == 47 {
        chars[i] := 95;
      }
    }
    out := chars[..];
    var pos := 0;
    while pos < |out| && out[pos] != 61
      invariant pos <= |out| && forall j :: 0 <= j < pos ==> out[j] != 61
    {
      pos := pos + 1;
    }
    if pos < |out| {
      out := out[..pos];
    }
    ToUrlIs(base64, out);
  }

  lemma {:induction false} ToUrlIs(t: Bytes, u: Bytes)
    requires |u| <= |t| && (|u| < |t| ==> t[|u|] == 61)
    requires forall i :: 0 <= i < |u| ==> u[i] == ToUrlChar(t[i]) && t[i] != 61
    ensures u == ToUrl(t)
  {
    if u != [] {
      ToUrlIs(t[1..], u[1..]);
    }
  }

  method FromBase64Url(base64url: Bytes) returns (out: Bytes)
    ensures out == FromUrl(base64url)
  {
    var chars := new Byte[|base64url|](i requires 0 <= i < |base64url| => base64url[i]);
    for i := 0 to chars.Length
      invariant forall j :: 0 <= j < i ==> chars[j] == FromUrlChar(base64url[j])
      invariant forall j :: i <= j < chars.Length ==> chars[j] == base64url[j]
    {
      if chars[i] == 45 {
        chars[i] := 43;
      } else if chars[i] == 95 {
        chars[i] := 47;
      }
    }
    out := chars[..];
    assert out == FromUrlChars(base64url);
    match |out| % 4 {
      case 2 => out := out + [61, 61];
      case 3 => out := out + [61];
      case _ =>
    }
  }

  method Base64UrlEncode(data: Bytes) returns (out: Bytes)
    ensures out == UrlEncode(data)
  {
    var base64 := Base64Encode(data);
    out := ToBase64Url(base64);
  }

  method Base64UrlDecode(data: Bytes) returns (out: Bytes)
    ensures out == UrlDecode(data)
  {
    var base64 := FromBase64Url(data);
    out := Base64Decode(base64);
  }
}
