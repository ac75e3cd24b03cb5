/** HMAC-SHA256: section 2 of RFC 2104, and the method of src/crypto/HMAC.cpp. */
module Hmac {
  import opened Octets
  import opened BlockStream
  import opened Fips180
  import opened StreamingHash

  /** Exclusive or of two bytes. */
  function Xor(x: Byte, y: Byte): Byte {
    ((x as bv8) ^ (y as bv8)) as Byte
  }

  function XorAll(key: Bytes, mask: Byte): (r: Bytes)
    ensures |r| == |key|
  {
    seq(|key|, i requires 0 <= i < |key| => Xor(key[i], mask))
  }

  /** The key as one block: hashed when longer, then zeros appended. */
  function KeyBlock(key: Bytes): Block {
    var k := if |key| > 64 then Sha256Of(key) else key;
    k + Zeros(64 - |k|)
  }

  function HmacOf(key: Bytes, data: Bytes): (mac: Bytes)
    ensures |mac| == 32
  {
    var k := KeyBlock(key);
    Sha256Of(XorAll(k, 0x5c) + Sha256Of(XorAll(k, 0x36) + data))
  }

  /** Trailing zero bytes do not change a key that still fits a block. */
  lemma ZeroExtension(key: Bytes, n: nat, data: Bytes)
    requires |key| + n <= 64
    ensures HmacOf(key + Zeros(n), data) == HmacOf(key, data)
  {
    hide Sha256Of;
    assert KeyBlock(key + Zeros(n)) == KeyBlock(key);
  }

  /** A key longer than a block stands for its own digest. */
  lemma LongKey(key: Bytes, data: Bytes)
    requires |key| > 64
    ensures HmacOf(key, data) == HmacOf(Sha256Of(key), data)
  {
    hide Sha256Of;
    assert KeyBlock(key) == KeyBlock(Sha256Of(key));
  }

  /**
   The code of a key that fits a block, with the two pads given byte by byte: the key's bytes, then
   zeros, against 0x36 inside and against 0x5c outside.
   */
  lemma ShortKey(key: Bytes, data: Bytes, inner: Bytes, outer: Bytes)
    requires |key| <= 64 && |inner| == |outer| == 64
    requires forall i :: 0 <= i < |key| ==> inner[i] == ((key[i] as bv8) ^ 0x36) as Byte
    requires forall i :: 0 <= i < |key| ==> outer[i] == ((key[i] as bv8) ^ 0x5c) as Byte
    requires forall i :: |key| <= i < 64 ==> inner[i] == 0x36 && outer[i] == 0x5c
    ensures HmacOf(key, data) == Sha256Of(outer + Sha256Of(inner + data))
  {
    hide Sha256Of, Xor;
    var k := KeyBlock(key);
    forall i | 0 <= i < 64 ensures Xor(k[i], 0x36) == inner[i] && Xor(k[i], 0x5c) == outer[i] {
      if i < |key| {
        Masked(key[i]);
      } else {
        ZeroMasked();
      }
    }
    assert XorAll(k, 0x36) == inner && XorAll(k, 0x5c) == outer;
  }

  lemma Masked(x: Byte)
    ensures Xor(x, 0x36) == ((x as bv8) ^ 0x36) as Byte
    ensures Xor(x, 0x5c) == ((x as bv8) ^ 0x5c) as Byte
  {
  }

  lemma ZeroMasked()
    ensures Xor(0, 0x36) == 0x36 && Xor(0, 0x5c) == 0x5c
  {
  }

  lemma EmptyKey(data: Bytes)
    ensures HmacOf([], data) == Sha256Of(seq(64, _ => 0x5c) + Sha256Of(seq(64, _ => 0x36) + data))
  {
    hide HmacOf, Sha256Of;
    ShortKey([], data, seq(64, _ => 0x36), seq(64, _ => 0x5c));
  }

  method HmacSha256(key: Bytes, data: Bytes) returns (mac: Bytes)
    ensures mac == HmacOf(key, data)
  {
    hide Sha256Of, Xor;
    var k := key;
    if |k| > 64 {
      k := HashBytes(k);
    }
    if |k| < 64 {
      k := k + Zeros(64 - |k|);
    }
    assert k == KeyBlock(key);

    var ipad, opad := new Byte[64](_ => 0), new Byte[64](_ => 0);
    for i := 0 to 64
      invariant forall j :: 0 <= j < i ==> ipad[j] == Xor(k[j], 0x36) && opad[j] == Xor(k[j], 0x5c)
    {
      ipad[i] := Xor(k[i], 0x36);
      opad[i] := Xor(k[i], 0x5c);
    }
    assert ipad[..] == XorAll(k, 0x36) && opad[..] == XorAll(k, 0x5c);
    var innerDigest := HashTwo(ipad[..], data);
    mac := HashTwo(opad[..], innerDigest);
  }

  /** One hash object fed twice, as the inner and the outer hash are. */
  method HashTwo(first: Bytes, second: Bytes) returns (digest: Bytes)
    ensures digest == Sha256Of(first + second)
  {
    hide Sha256Of, Sha256.Valid;
    var sha := new Sha256();
    sha.Update(first);
    sha.Update(second);
    assert [] + first + second == first + second;
    var d := sha.Digest();
    digest := d[..];
  }
}
