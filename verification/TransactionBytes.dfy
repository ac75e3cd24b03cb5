/**
 The binary file of src/persistence/TransactionRepository.cpp: native little-endian integers,
 8-byte lengths before strings, 4-byte status; and what its reads leave in their variables.
 */
module TransactionBytes {
  import opened Machine
  import opened Octets
  import Radix

  /** A string, whose length is a size_t. */
  type Text = s: Bytes | |s| < TWO64

  /** The status is the raw value of the enumeration: the file may hold unnamed ones. */
  datatype Transaction = Transaction(
    id: Text, paymentMethod: Text, cents: Int64, status: Int32, description: Text, timestamp: Int64)

  // ----- little-endian integers

  function Little(v: nat, n: nat): (b: Bytes)
    ensures |b| == n
  {
    if n == 0 then [] else [(v % 256) as Byte] + Little(v / 256, n - 1)
  }

  function Unlittle(b: Bytes): nat {
    if b == [] then 0 else b[0] as nat + 256 * Unlittle(b[1..])
  }

  /** 256^n for the field widths in use. */
  function Capacity(n: nat): (c: nat)
    ensures c > 0
  {
    if n == 0 then 1 else 256 * Capacity(n - 1)
  }

  lemma {:induction false} UnlittleOfLittle(v: nat, n: nat)
    ensures Unlittle(Little(v, n)) == v % Capacity(n)
  {
    if n > 0 {
      var c, w := Capacity(n - 1), v / 256;
      UnlittleOfLittle(w, n - 1);
      assert Little(v, n)[1..] == Little(w, n - 1);
      LowDigit(v, c);
    }
  }

  /** Cutting a number behind its lowest byte. */
  lemma LowDigit(v: nat, c: nat)
    requires c > 0
    ensures v % (256 * c) == v % 256 + 256 * (v / 256 % c)
  {
    var w := v / 256;
    assert w == w / c * c + w % c;
    assert v == w / c * (256 * c) + (v % 256 + 256 * (w % c));
    Radix.ModUnique(v, 256 * c, w / c, v % 256 + 256 * (w % c));
  }

  lemma LowByte(x: nat, y: nat)
    requires x < 256
    ensures (x + 256 * y) % 256 == x && (x + 256 * y) / 256 == y
  {
  }

  lemma {:induction false} LittleOfUnlittle(b: Bytes)
    ensures Unlittle(b) < Capacity(|b|)
    ensures Little(Unlittle(b), |b|) == b
  {
    if b != [] {
      LittleOfUnlittle(b[1..]);
      LowByte(b[0] as nat, Unlittle(b[1..]));
    }
  }

  lemma Capacities()
    ensures Capacity(4) == TWO32 && Capacity(8) == TWO64
  {
    assert Capacity(3) == 0x100_0000;
    assert Capacity(6) == 0x1_0000_0000_0000;
  }

  /** Two's complement. */
  function Unsigned(x: int, modulus: nat): nat
    requires 0 <= x + modulus
  {
    if x < 0 then x + modulus else x
  }

  function Signed(u: nat, modulus: nat): int {
    if 2 * u < modulus then u else u - modulus
  }

  // ----- fields of four and eight bytes, and the values they stand for

  type Four = b: Bytes | |b| == 4 witness [0, 0, 0, 0]
  type Eight = b: Bytes | |b| == 8 witness [0, 0, 0, 0, 0, 0, 0, 0]

  function Size(n: nat): Eight { Little(n % TWO64, 8) }

  function LongBytes(x: Int64): Eight { Little(Unsigned(x, TWO64), 8) }

  function IntBytes(x: Int32): Four { Little(Unsigned(x, TWO32), 4) }

  function AsSize(b: Eight): (n: nat)
    ensures n < TWO64
  {
    LittleOfUnlittle(b);
    Capacities();
    Unlittle(b)
  }

  function AsLong(b: Eight): Int64 { Signed(AsSize(b), TWO64) }

  function AsInt(b: Four): Int32 {
    LittleOfUnlittle(b);
    Capacities();
    Signed(Unlittle(b), TWO32)
  }

  lemma SizeValue(n: nat)
    ensures AsSize(Size(n)) == n % TWO64
  {
    UnlittleOfLittle(n % TWO64, 8);
    Capacities();
    hide Little, Unlittle, Capacity;
  }

  lemma SizeOfValue(b: Eight)
    ensures Size(AsSize(b)) == b
  {
    LittleOfUnlittle(b);
    hide Little, Unlittle, Capacity;
    assert AsSize(b) % TWO64 == AsSize(b);
  }

  lemma LongValue(x: Int64)
    ensures AsLong(LongBytes(x)) == x
  {
    var u := Unsigned(x, TWO64);
    UnlittleOfLittle(u, 8);
    Capacities();
    hide Little, Unlittle, Capacity;
    Radix.ModUnique(u, TWO64, 0, u);
    assert AsSize(LongBytes(x)) == u;
  }

  lemma LongOfValue(b: Eight)
    ensures LongBytes(AsLong(b)) == b
  {
    LittleOfUnlittle(b);
    hide Little, Unlittle, Capacity;
    assert Unsigned(AsLong(b), TWO64) == AsSize(b);
  }

  lemma IntValue(x: Int32)
    ensures AsInt(IntBytes(x)) == x
  {
    UnlittleOfLittle(Unsigned(x, TWO32), 4);
    Capacities();
    hide Little, Unlittle, Capacity;
  }

  lemma IntOfValue(b: Four)
    ensures IntBytes(AsInt(b)) == b
  {
    LittleOfUnlittle(b);
    Capacities();
    hide Little, Unlittle, Capacity;
    assert Unsigned(AsInt(b), TWO32) == Unlittle(b);
  }

  // ----- writing

  function TextBytes(s: Text): Bytes { Size(|s|) + s }

  function Record(t: Transaction): Bytes {
    TextBytes(t.id) + (TextBytes(t.paymentMethod) + (LongBytes(t.cents) + (IntBytes(t.status) +
      (TextBytes(t.description) + LongBytes(t.timestamp)))))
  }

  function Records(txs: seq<Transaction>): Bytes {
    if txs == [] then [] else Record(txs[0]) + Records(txs[1..])
  }

  function Serialized(txs: seq<Transaction>): Bytes {
    Size(|txs|) + Records(txs)
  }

  // ----- one read

  /** What is left to read, and whether no read has failed: after the first failure no read does anything. */
  datatype Stream = Stream(bytes: Bytes, good: bool)

  datatype Taken = Taken(value: Bytes, behind: Stream)

  /** istream::read: the front of the buffer is overwritten with what there is; too little is a failure. */
  function Take(s: Stream, buffer: Bytes): (r: Taken)
    ensures |r.value| == |buffer|
  {
    if !s.good then Taken(buffer, s)
    else if |buffer| <= |s.bytes| then Taken(s.bytes[..|buffer|], Stream(s.bytes[|buffer|..], true))
    else Taken(s.bytes + buffer[|s.bytes|..], Stream([], false))
  }

  /** Two reads one after the other are one read of both buffers. */
  lemma TakeSplit(s: Stream, f: Bytes, g: Bytes)
    ensures var a, all := Take(s, f), Take(s, f + g);
            all == Taken(a.value + Take(a.behind, g).value, Take(a.behind, g).behind)
  {
    var a := Take(s, f);
    if s.good && |f| <= |s.bytes| {
      if |f + g| > |s.bytes| {
        assert (f + g)[|s.bytes|..] == g[|s.bytes| - |f|..];
      }
    } else if s.good {
      assert (f + g)[|s.bytes|..] == f[|s.bytes|..] + g;
    }
  }

  lemma SplitValues(a: Bytes, b: Bytes, v: Bytes, w: Bytes)
    requires |a| == |v| && a + b == v + w
    ensures a == v && b == w
  {
    assert (a + b)[..|a|] == a && (a + b)[|a|..] == b;
    assert (v + w)[..|v|] == v && (v + w)[|v|..] == w;
  }

  /** A read of two buffers gives two values just when each read gives its own. */
  lemma TakesBoth(s: Stream, f: Bytes, g: Bytes, v: Bytes, w: Bytes, t: Stream)
    requires |f| == |v| && |g| == |w|
    ensures Take(s, f + g) == Taken(v + w, t) <==>
            Take(s, f).value == v && Take(Take(s, f).behind, g) == Taken(w, t)
  {
    hide Take;
    TakeSplit(s, f, g);
    var a := Take(s, f);
    if Take(s, f + g) == Taken(v + w, t) {
      SplitValues(a.value, Take(a.behind, g).value, v, w);
    }
  }

  // ----- reading one record

  /** What the uninitialised variables of the loop body hold before they are read into. */
  datatype Leftovers = Leftovers(strLen: Eight, cents: Eight, status: Four)

  datatype TextRead = TextRead(text: Text, behind: Stream)

  /** A length, over the last one in the same variable; then the characters, over that many zeros. */
  function ReadText(s: Stream, strLen: Eight): TextRead {
    var n := Take(s, strLen);
    var t := Take(n.behind, Zeros(AsSize(n.value)));
    TextRead(t.value, t.behind)
  }

  datatype RecordRead = RecordRead(tx: Transaction, behind: Stream)

  /** The loop body of loadFromFile: the record is in the list even when its own reads ended the stream. */
  function ReadRecord(s: Stream, left: Leftovers): RecordRead {
    var id := ReadText(s, left.strLen);
    var paymentMethod := ReadText(id.behind, Size(|id.text|));
    var cents := Take(paymentMethod.behind, left.cents);
    var status := Take(cents.behind, left.status);
    var description := ReadText(status.behind, Size(|paymentMethod.text|));
    var duration := Take(description.behind, Zeros(8));
    RecordRead(Transaction(id.text, paymentMethod.text, AsLong(cents.value), AsInt(status.value),
                           description.text, AsLong(duration.value)), duration.behind)
  }

  /**
   What stands for the bytes of t that a file does not hold: leftovers for the fields up to the
   status, the last length for the later lengths, zeros for characters and timestamp.
   */
  function Fallback(t: Transaction, left: Leftovers): (b: Bytes)
    ensures |b| == |Record(t)|
  {
    (left.strLen + Zeros(|t.id|)) + ((Size(|t.id|) + Zeros(|t.paymentMethod|)) + (left.cents + (left.status +
      ((Size(|t.paymentMethod|) + Zeros(|t.description|)) + Zeros(8)))))
  }

  lemma TextExactly(s: Stream, strLen: Eight, x: Text, t: Stream)
    ensures ReadText(s, strLen) == TextRead(x, t) <==> Take(s, strLen + Zeros(|x|)) == Taken(TextBytes(x), t)
  {
    hide Take, Size, AsSize, Zeros;
    SizeExactly(Take(s, strLen).value, |x|);
    TakesBoth(s, strLen, Zeros(|x|), Size(|x|), x, t);
  }

  lemma SizeExactly(b: Eight, n: nat)
    requires n < TWO64
    ensures AsSize(b) == n <==> b == Size(n)
  {
    SizeValue(n);
    SizeOfValue(b);
    hide Size, AsSize;
  }

  lemma LongExactly(b: Eight, x: Int64)
    ensures AsLong(b) == x <==> b == LongBytes(x)
  {
    LongValue(x);
    LongOfValue(b);
    hide LongBytes, AsLong;
  }

  lemma IntExactly(b: Four, x: Int32)
    ensures AsInt(b) == x <==> b == IntBytes(x)
  {
    IntValue(x);
    IntOfValue(b);
    hide IntBytes, AsInt;
  }

  /** One read of six buffers. */
  lemma TakesSix(s: Stream, f: seq<Bytes>, v: seq<Bytes>, t: Stream)
    requires |f| == |v| == 6 && forall i :: 0 <= i < 6 ==> |f[i]| == |v[i]|
    ensures var s1 := Take(s, f[0]);
            var s2 := Take(s1.behind, f[1]);
            var s3 := Take(s2.behind, f[2]);
            var s4 := Take(s3.behind, f[3]);
            var s5 := Take(s4.behind, f[4]);
            Take(s, f[0] + (f[1] + (f[2] + (f[3] + (f[4] + f[5]))))) ==
              Taken(v[0] + (v[1] + (v[2] + (v[3] + (v[4] + v[5])))), t) <==>
            s1.value == v[0] && s2.value == v[1] && s3.value == v[2] && s4.value == v[3] && s5.value == v[4] &&
            Take(s5.behind, f[5]) == Taken(v[5], t)
  {
    hide Take;
    var s1 := Take(s, f[0]).behind;
    var s2 := Take(s1, f[1]).behind;
    var s3 := Take(s2, f[2]).behind;
    var s4 := Take(s3, f[3]).behind;
    var f4, v4 := f[4] + f[5], v[4] + v[5];
    var f3, v3 := f[3] + f4, v[3] + v4;
    var f2, v2 := f[2] + f3, v[2] + v3;
    TakesBoth(s4, f[4], f[5], v[4], v[5], t);
    TakesBoth(s3, f[3], f4, v[3], v4, t);
    TakesBoth(s2, f[2], f3, v[2], v3, t);
    TakesBoth(s1, f[1], f2, v[1], v2, t);
    TakesBoth(s, f[0], f[1] + f2, v[0], v[1] + v2, t);
  }

  /**
   A record is read from any stream exactly when its bytes are what one single read leaves in a
   buffer that holds the fallback.
   */
  lemma RecordExactly(s: Stream, left: Leftovers, t: Transaction, behind: Stream)
    ensures ReadRecord(s, left) == RecordRead(t, behind) <==>
            Take(s, Fallback(t, left)) == Taken(Record(t), behind)
  {
    hide Take, TextBytes, Size, LongBytes, IntBytes, AsLong, AsInt, Zeros, ReadText;
    var f := [left.strLen + Zeros(|t.id|), Size(|t.id|) + Zeros(|t.paymentMethod|), left.cents, left.status,
              Size(|t.paymentMethod|) + Zeros(|t.description|), Zeros(8)];
    var v := [TextBytes(t.id), TextBytes(t.paymentMethod), LongBytes(t.cents), IntBytes(t.status),
              TextBytes(t.description), LongBytes(t.timestamp)];
    SameLengths(t, left);
    TakesSix(s, f, v, behind);
    var s1 := Take(s, f[0]);
    var s2 := Take(s1.behind, f[1]);
    var s3 := Take(s2.behind, f[2]);
    var s4 := Take(s3.behind, f[3]);
    var s5 := Take(s4.behind, f[4]);
    TextRuns(s, left.strLen, t.id);
    TextRuns(s1.behind, Size(|t.id|), t.paymentMethod);
    LongExactly(s3.value, t.cents);
    IntExactly(s4.value, t.status);
    TextRuns(s4.behind, Size(|t.paymentMethod|), t.description);
    LongExactly(Take(s5.behind, f[5]).value, t.timestamp);
  }

  lemma SameLengths(t: Transaction, left: Leftovers)
    ensures |left.strLen + Zeros(|t.id|)| == |TextBytes(t.id)|
    ensures |Size(|t.id|) + Zeros(|t.paymentMethod|)| == |TextBytes(t.paymentMethod)|
    ensures |Size(|t.paymentMethod|) + Zeros(|t.description|)| == |TextBytes(t.description)|
  {
  }

  /** Reading some text, and then being where one read of its bytes ends. */
  lemma TextRuns(s: Stream, strLen: Eight, x: Text)
    ensures var t := Take(s, strLen + Zeros(|x|));
            && (ReadText(s, strLen).text == x <==> t.value == TextBytes(x))
            && (ReadText(s, strLen).text == x ==> ReadText(s, strLen).behind == t.behind)
  {
    hide Take, TextBytes, Zeros, ReadText;
    TextExactly(s, strLen, x, ReadText(s, strLen).behind);
    TextExactly(s, strLen, x, Take(s, strLen + Zeros(|x|)).behind);
  }

  // ----- the bytes themselves

  lemma DivideTwice(v: nat, c: nat)
    requires c > 0
    ensures v / 256 / c == v / (256 * c)
  {
    var q, r := v / 256 / c, v / 256 % c;
    assert v / 256 == q * c + r;
    assert v == q * (256 * c) + (256 * r + v % 256);
    Radix.ModUnique(v, 256 * c, q, 256 * r + v % 256);
  }

  /** Byte i of a field is the digit of 256^i: the lowest byte comes first. */
  lemma {:induction false} LittleMeaning(v: nat, n: nat, i: nat)
    requires i < n
    ensures Little(v, n)[i] as nat == v / Capacity(i) % 256
  {
    if i > 0 {
      LittleMeaning(v / 256, n - 1, i - 1);
      DivideTwice(v, Capacity(i - 1));
    }
  }

  /** The nine parts of a record in the order of the file. */
  lemma RecordLayout(t: Transaction)
    ensures Record(t) ==
            Size(|t.id|) + t.id + Size(|t.paymentMethod|) + t.paymentMethod + LongBytes(t.cents) + IntBytes(t.status)
            + Size(|t.description|) + t.description + LongBytes(t.timestamp)
  {
    hide Size, LongBytes, IntBytes;
    Flattened(Size(|t.id|), t.id, Size(|t.paymentMethod|), t.paymentMethod, LongBytes(t.cents) + (IntBytes(t.status) +
      (TextBytes(t.description) + LongBytes(t.timestamp))));
    var front := Size(|t.id|) + t.id + Size(|t.paymentMethod|) + t.paymentMethod;
    Flattened(front, LongBytes(t.cents), IntBytes(t.status), TextBytes(t.description), LongBytes(t.timestamp));
    assert front + LongBytes(t.cents) + IntBytes(t.status) + TextBytes(t.description) ==
           front + LongBytes(t.cents) + IntBytes(t.status) + Size(|t.description|) + t.description;
  }

  lemma Flattened(a: Bytes, b: Bytes, c: Bytes, d: Bytes, e: Bytes)
    ensures (a + b) + ((c + d) + e) == a + b + c + d + e
    ensures a + (b + (c + (d + e))) == a + b + c + d + e
  {
  }

  const EXAMPLE: Transaction := Transaction([65], [66, 67], 258, 8, [], -2)

  lemma ExampleFields()
    ensures Size(|EXAMPLE.id|) == [1, 0, 0, 0, 0, 0, 0, 0] && EXAMPLE.id == [65]
    ensures Size(|EXAMPLE.paymentMethod|) == [2, 0, 0, 0, 0, 0, 0, 0] && EXAMPLE.paymentMethod == [66, 67]
    ensures LongBytes(EXAMPLE.cents) == [2, 1, 0, 0, 0, 0, 0, 0] && IntBytes(EXAMPLE.status) == [8, 0, 0, 0]
    ensures Size(|EXAMPLE.description|) == [0, 0, 0, 0, 0, 0, 0, 0] && EXAMPLE.description == []
    ensures LongBytes(EXAMPLE.timestamp) == [254, 255, 255, 255, 255, 255, 255, 255]
  {
    SmallSizes();
    SmallFields();
    NegativeField();
    hide Size, LongBytes, IntBytes;
  }

  /** One record, byte by byte: "A" by "BC", 258 cents, refunded, no description, two ticks before the epoch. */
  lemma RecordExample()
    ensures Record(EXAMPLE) ==
            [1, 0, 0, 0, 0, 0, 0, 0] + [65] + [2, 0, 0, 0, 0, 0, 0, 0] + [66, 67] +
            [2, 1, 0, 0, 0, 0, 0, 0] + [8, 0, 0, 0] +
            [0, 0, 0, 0, 0, 0, 0, 0] + [] + [254, 255, 255, 255, 255, 255, 255, 255]
  {
    hide *;
    RecordLayout(EXAMPLE);
    ExampleFields();
  }

  lemma {:induction false} ShortField(low: Bytes, n: nat)
    ensures Little(Unlittle(low), |low| + n) == low + Zeros(n)
  {
    if low != [] {
      ShortField(low[1..], n);
      LowByte(low[0] as nat, Unlittle(low[1..]));
    } else if n > 0 {
      ShortField(low, n - 1);
      assert Zeros(n) == [0] + Zeros(n - 1);
    }
  }

  lemma SmallSize(n: Byte)
    ensures Size(n as nat) == [n] + Zeros(7)
  {
    ShortField([n], 7);
    assert Unlittle([n]) == n as nat;
    hide Little, Unlittle;
  }

  lemma SmallSizes()
    ensures Size(0) == [0, 0, 0, 0, 0, 0, 0, 0] && Size(1) == [1, 0, 0, 0, 0, 0, 0, 0]
    ensures Size(2) == [2, 0, 0, 0, 0, 0, 0, 0]
  {
    SmallSize(0);
    SmallSize(1);
    SmallSize(2);
    hide Size;
  }

  lemma SmallFields()
    ensures LongBytes(258) == [2, 1, 0, 0, 0, 0, 0, 0] && IntBytes(8) == [8, 0, 0, 0]
  {
    ShortField([2, 1], 6);
    ShortField([8], 3);
    assert Unlittle([8]) == 8;
    assert [2, 1][1..] == [1] && Unlittle([1]) == 1 && Unlittle([2, 1]) == 258;
    hide Little, Unlittle;
  }

  lemma NegativeField()
    ensures LongBytes(-2) == [254, 255, 255, 255, 255, 255, 255, 255]
  {
    hide Little, Unlittle;
    LittleOfUnlittle([254, 255, 255, 255, 255, 255, 255, 255]);
    AlmostAll();
  }

  lemma AlmostAll()
    ensures Unlittle([254, 255, 255, 255, 255, 255, 255, 255]) == TWO64 - 2
  {
    var b: Bytes := [254, 255, 255, 255, 255, 255, 255, 255];
    assert b[6..] == [255, 255] && b[7..] == [255];
    assert Unlittle(b[7..]) == 255 by {
      assert b[7..][1..] == [];
    }
    BehindFirst(b, 6);
    BehindFirst(b, 5);
    BehindFirst(b, 4);
    BehindFirst(b, 3);
    BehindFirst(b, 2);
    BehindFirst(b, 1);
    BehindFirst(b, 0);
    assert b[0..] == b;
  }

  lemma BehindFirst(b: Bytes, i: nat)
    requires i < |b|
    ensures Unlittle(b[i..]) == b[i] as nat + 256 * Unlittle(b[i + 1..])
  {
    assert b[i..][1..] == b[i + 1..];
  }
}
