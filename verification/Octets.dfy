/** Byte strings, the values of std::string and std::vector<uint8_t>. */
module Octets {
  newtype Byte = x: int | 0 <= x < 256
  type Bytes = seq<Byte>

  /** A literal's characters as bytes. */
  function Ascii(s: string): (b: Bytes)
    ensures |b| == |s|
  {
    seq(|s|, i requires 0 <= i < |s| => (s[i] as int % 256) as Byte)
  }

  function Nats(b: Bytes): (d: seq<nat>)
    ensures |d| == |b| && forall i :: 0 <= i < |b| ==> d[i] == b[i] as nat
  {
    seq(|b|, i requires 0 <= i < |b| => b[i] as nat)
  }

  function ToBytes(d: seq<nat>): (b: Bytes)
    requires forall i :: 0 <= i < |d| ==> d[i] < 256
    ensures |b| == |d| && Nats(b) == d
  {
    var b := seq(|d|, i requires 0 <= i < |d| => d[i] as Byte);
    assert Nats(b) == d;
    b
  }

  function Zeros(n: nat): (z: Bytes)
    ensures |z| == n
  {
    seq(n, _ => 0)
  }

  lemma AsciiCodes(s: string, i: nat)
    requires i < |s| && s[i] as int < 256
    ensures Ascii(s)[i] as int == s[i] as int
  {
  }
}
