/** The streaming hash object of src/crypto/SHA256.cpp. */
module StreamingHash {
  import opened Radix
  import opened Machine
  import opened Octets
  import opened BlockStream
  import opened Fips180

  // ----- the object seen from outside

  /** The bytes accepted so far, and whether digest has closed the object. */
  datatype View = View(message: Bytes, closed: bool)

  datatype Call = Update(data: Bytes) | Digest

  function After(v: View, c: Call): View {
    match c
    case Update(data) => if v.closed then v else v.(message := v.message + data)
    case Digest => v.(closed := true)
  }

  /** What the digest calls of a run answer, in order. */
  function Answers(hash: Bytes -> Bytes, v: View, calls: seq<Call>): seq<Bytes>
    decreases calls
  {
    if calls == [] then []
    else (if calls[0].Digest? then [hash(v.message)] else []) + Answers(hash, After(v, calls[0]), calls[1..])
  }

  /** The data of the update calls before the first digest, joined. */
  function Accepted(calls: seq<Call>): Bytes {
    if calls == [] || calls[0].Digest? then [] else calls[0].data + Accepted(calls[1..])
  }

  /**
   However the data is cut into update calls, and whatever is called after the first digest,
   every digest answers the hash of the data that came before it.
   */
  lemma {:induction false} EveryRun(hash: Bytes -> Bytes, calls: seq<Call>, v: View, i: nat)
    requires i < |Answers(hash, v, calls)|
    ensures Answers(hash, v, calls)[i] == hash(if v.closed then v.message else v.message + Accepted(calls))
    decreases calls
  {
    if calls[0].Digest? {
      assert v.message + [] == v.message;
      if i > 0 {
        EveryRun(hash, calls[1..], After(v, calls[0]), i - 1);
      }
    } else {
      EveryRun(hash, calls[1..], After(v, calls[0]), i);
      assert v.message + (calls[0].data + Accepted(calls[1..])) == v.message + calls[0].data + Accepted(calls[1..]);
    }
  }

  /** For a new hash object: every digest of every run is the SHA-256 of the data accepted. */
  lemma EveryDigest(calls: seq<Call>, i: nat)
    requires i < |Answers(Sha256Of, View([], false), calls)|
    ensures Answers(Sha256Of, View([], false), calls)[i] == Sha256Of(Accepted(calls))
  {
    hide Sha256Of;
    EveryRun(Sha256Of, calls, View([], false), i);
    assert [] + Accepted(calls) == Accepted(calls);
  }

  // ----- hexadecimal text

  function HexDigit(n: Byte): Byte
    requires n < 16
  {
    if n < 10 then 48 + n else 87 + n  // '0' + n, 'a' + (n - 10)
  }

  /** Two digits a byte, high half first. */
  function Hex(d: Bytes): (t: Bytes)
    ensures |t| == 2 * |d|
  {
    if d == [] then []
    else Hex(d[..|d| - 1]) + [HexDigit(d[|d| - 1] / 16), HexDigit(d[|d| - 1] % 16)]
  }

  /** The text byte by byte, high half first, with small letters. */
  lemma {:induction false} HexMeaning(d: Bytes, i: nat)
    requires i < |d|
    ensures Hex(d)[2 * i] == Ascii("0123456789abcdef")[d[i] as int / 16]
    ensures Hex(d)[2 * i + 1] == Ascii("0123456789abcdef")[d[i] as int % 16]
  {
    var n := |d| - 1;
    if i < n {
      HexMeaning(d[..n], i);
    } else {
      HexDigitMeaning(d[n] / 16);
      HexDigitMeaning(d[n] % 16);
    }
  }

  lemma HexDigitMeaning(n: Byte)
    requires n < 16
    ensures HexDigit(n) == Ascii("0123456789abcdef")[n as int]
  {
  }

  /** No two digests share their text. */
  lemma {:induction false} HexInjective(d: Bytes, e: Bytes)
    requires Hex(d) == Hex(e)
    ensures d == e
  {
    if d != [] {
      assert |d| == |e|;
      var n := |d| - 1;
      var s, t := Hex(d[..n]), Hex(e[..n]);
      assert Hex(d)[..2 * n] == s && Hex(e)[..2 * n] == t;
      assert Hex(d)[2 * n] == HexDigit(d[n] / 16) && Hex(d)[2 * n + 1] == HexDigit(d[n] % 16);
      assert Hex(e)[2 * n] == HexDigit(e[n] / 16) && Hex(e)[2 * n + 1] == HexDigit(e[n] % 16);
      HexInjective(d[..n], e[..n]);
    } else {
      assert |Hex(e)| == 0;
    }
  }

  // ----- facts about the counter and the padding

  lemma NoBits()
    ensures BitCount(0) == 0
  {
  }

  lemma CountBlock(bytes: nat)
    ensures (BitCount(bytes) + 512) % TWO64 == BitCount(bytes + 64)
  {
  }

  lemma CountRest(message: Bytes)
    ensures var p := Fed(Compress, InitialHash(), message);
            (BitCount(64 * p.blocks) + |p.waiting| * 8) % TWO64 == BitCount(|message|)
  {
    hide Compress, InitialHash, Fed;
    FedMeaning(Compress, InitialHash(), message);
  }

  /** A last block: some bytes, zeros, and the length field. */
  function LastBlock(start: Bytes, field: Bytes): Block
    requires |start| <= 56 && |field| == 8
  {
    start + Zeros(56 - |start|) + field
  }

  /** The padding fits behind at most 55 waiting bytes. */
  lemma PadOneBlock(message: Bytes)
    requires |Fed(Compress, InitialHash(), message).waiting| <= 55
    ensures var p := Fed(Compress, InitialHash(), message);
            Fold(Compress, InitialHash(), Pad(message)) ==
            Compress(p.state, LastBlock(p.waiting + [0x80], LengthField(|message|)))
  {
    hide Compress, InitialHash, Fed, Fold, LengthField;
    FedMeaning(Compress, InitialHash(), message);
    var done := Whole(|message|);
    var block := LastBlock(message[done..] + [0x80], LengthField(|message|));
    assert ZeroCount(|message|) == 55 - (|message| - done);
    assert Pad(message) == message[..done] + block;
    FoldAppend(Compress, InitialHash(), message[..done], block);
  }

  /** Behind 56 to 63 waiting bytes it takes a second block. */
  lemma PadTwoBlocks(message: Bytes, first: Block)
    requires var p := Fed(Compress, InitialHash(), message);
             56 <= |p.waiting| < 64 && first == p.waiting + [0x80] + Zeros(63 - |p.waiting|)
    ensures var p := Fed(Compress, InitialHash(), message);
            Fold(Compress, InitialHash(), Pad(message)) ==
            Compress(Compress(p.state, first), LastBlock([], LengthField(|message|)))
  {
    hide Compress, InitialHash, Fed, Fold, LengthField;
    FedMeaning(Compress, InitialHash(), message);
    var done := Whole(|message|);
    var second := LastBlock([], LengthField(|message|));
    assert ZeroCount(|message|) == 119 - (|message| - done);
    assert Pad(message) == message[..done] + first + second;
    FoldAppend(Compress, InitialHash(), message[..done], first);
    FoldAppend(Compress, InitialHash(), message[..done] + first, second);
  }

  /** The sums one after the other, as the statements of transform form them. */
  lemma AddIntoSteps(h: Hash, v: Working)
    ensures AddInto(h, v) ==
            h[0 := Plus(h[0], v.a)][1 := Plus(h[1], v.b)][2 := Plus(h[2], v.c)][3 := Plus(h[3], v.d)]
             [4 := Plus(h[4], v.e)][5 := Plus(h[5], v.f)][6 := Plus(h[6], v.g)][7 := Plus(h[7], v.h)]
  {
    hide Plus;
  }

  class Sha256 {
    var bitCount: nat
    var state: array<Word>
    var buffer: array<Byte>
    var bufferLen: nat
    var finalized: bool
    ghost var message: Bytes  // every byte accepted so far

    ghost predicate Streaming()
      requires state.Length == 8 && buffer.Length == 64
      reads this, state, buffer
    {
      && bufferLen < 64
      && var p := Fed(Compress, InitialHash(), message);
      && state[..] == p.state
      && buffer[..bufferLen] == p.waiting
      && bitCount == BitCount(64 * p.blocks)
    }

    ghost predicate Valid()
      reads this, state, buffer
    {
      && state.Length == 8 && buffer.Length == 64
      && (!finalized ==> Streaming())
      && (finalized ==> state[..] == Fold(Compress, InitialHash(), Pad(message)))
    }

    ghost function Seen(): View
      reads this
    {
      View(message, finalized)
    }

    constructor ()
      ensures Valid() && fresh(state) && fresh(buffer)
      ensures Seen() == View([], false)
    {
      hide InitialWord, Compress, BitCount;
      state := new Word[8](i requires 0 <= i < 8 => InitialWord(i));
      buffer := new Byte[64](_ => 0);
      bitCount, bufferLen, finalized := 0, 0, false;
      message := [];
      new;
      assert state[..] == InitialHash();
      assert buffer[..0] == [];
      NoBits();
    }

    /** The schedule array of transform. */
    method PrepareSchedule() returns (W: array<Word>)
      requires buffer.Length == 64
      ensures fresh(W) && W.Length == 64
      ensures forall j :: 0 <= j < 64 ==> W[j] == Schedule(buffer[..], j)
    {
      hide Schedule;
      W := LoadWords();
      ExpandWords(W, buffer[..]);
    }

    /** The first loop of transform. */
    method LoadWords() returns (W: array<Word>)
      requires buffer.Length == 64
      ensures fresh(W) && W.Length == 64
      ensures forall j :: 0 <= j < 16 ==> W[j] == Schedule(buffer[..], j)
    {
      hide Load, Plus, Sigma0, Sigma1;
      ghost var block := buffer[..];
      W := new Word[64];
      for i := 0 to 16
        invariant buffer[..] == block
        invariant forall j :: 0 <= j < i ==> W[j] == Schedule(block, j)
      {
        W[i] := Load(buffer[i * 4], buffer[i * 4 + 1], buffer[i * 4 + 2], buffer[i * 4 + 3]);
      }
    }

    /** The second loop of transform. */
    method ExpandWords(W: array<Word>, ghost block: Block)
      requires W.Length == 64 && forall j :: 0 <= j < 16 ==> W[j] == Schedule(block, j)
      modifies W
      ensures forall j :: 0 <= j < 64 ==> W[j] == Schedule(block, j)
    {
      hide Load, Plus, Sigma0, Sigma1;
      for i := 16 to 64
        invariant forall j :: 0 <= j < i ==> W[j] == Schedule(block, j)
      {
        W[i] := Plus(Plus(Plus(Sigma1(W[i - 2]), W[i - 7]), Sigma0(W[i - 15])), W[i - 16]);
      }
    }

    /** The eight rotating registers of transform. */
    method RunRounds(W: array<Word>, ghost block: Block) returns (v: Working)
      requires state.Length == 8
      requires W.Length == 64 && forall j :: 0 <= j < 64 ==> W[j] == Schedule(block, j)
      ensures v == Rounds(Start(state[..]), block, 64)
    {
      hide Schedule, RoundConstant, Plus, Sum0, Sum1, Ch, Maj;
      var a, b, c, d := state[0], state[1], state[2], state[3];
      var e, f, g, h := state[4], state[5], state[6], state[7];
      for i := 0 to 64
        invariant Working(a, b, c, d, e, f, g, h) == Rounds(Start(state[..]), block, i)
      {
        var t1 := Plus(Plus(Plus(Plus(h, Sum1(e)), Ch(e, f, g)), RoundConstant(i)), W[i]);
        var t2 := Plus(Sum0(a), Maj(a, b, c));
        h := g; g := f; f := e; e := Plus(d, t1);
        d := c; c := b; b := a; a := Plus(t1, t2);
      }
      v := Working(a, b, c, d, e, f, g, h);
    }

    method AddTo(i: nat, x: Word)
      requires i < state.Length
      modifies state
      ensures state[..] == old(state[..])[i := Plus(old(state[i]), x)]
    {
      hide Plus;
      state[i] := Plus(state[i], x);
    }

    /** The feed-forward that ends transform. */
    method AddRegisters(v: Working)
      requires state.Length == 8
      modifies state
      ensures state[..] == AddInto(old(state[..]), v)
    {
      hide Plus, AddInto;
      AddIntoSteps(state[..], v);
      AddTo(0, v.a);
      AddTo(1, v.b);
      AddTo(2, v.c);
      AddTo(3, v.d);
      AddTo(4, v.e);
      AddTo(5, v.f);
      AddTo(6, v.g);
      AddTo(7, v.h);
    }

    method Transform()
      requires state.Length == 8 && buffer.Length == 64
      modifies state
      ensures state[..] == Compress(old(state[..]), buffer[..])
    {
      hide Schedule, Rounds, AddInto, Start;
      var W := PrepareSchedule();
      var v := RunRounds(W, buffer[..]);
      AddRegisters(v);
    }

    /** The full-buffer branch of update's loop. */
    method Flush()
      requires state.Length == 8 && buffer.Length == 64
      modifies this`bitCount, this`bufferLen, state
      ensures state[..] == Compress(old(state[..]), buffer[..])
      ensures bitCount == (old(bitCount) + 512) % TWO64 && bufferLen == 0
    {
      hide Compress;
      Transform();
      bitCount := (bitCount + 512) % TWO64;
      bufferLen := 0;
    }

    /** A byte enters the buffer. */
    method Store(byte: Byte)
      requires buffer.Length == 64 && bufferLen < 64
      modifies this`bufferLen, buffer
      ensures bufferLen == old(bufferLen) + 1
      ensures buffer[..bufferLen] == old(buffer[..bufferLen]) + [byte]
    {
      buffer[bufferLen] := byte;
      bufferLen := bufferLen + 1;
    }

    /** One turn of update's loop. */
    method Put(byte: Byte)
      requires Valid() && !finalized
      modifies this`bitCount, this`bufferLen, this`message, state, buffer
      ensures Valid()
      ensures message == old(message) + [byte]
    {
      hide Compress, InitialHash, BitCount, Fed;
      ghost var p := Fed(Compress, InitialHash(), message);
      CountBlock(64 * p.blocks);
      FedByte(Compress, InitialHash(), message, byte);
      Store(byte);
      message := message + [byte];
      if bufferLen == 64 {
        assert buffer[..] == buffer[..64];
        Flush();
        assert buffer[..0] == [];
      }
    }

    method Update(data: Bytes)
      requires Valid()
      modifies this`bitCount, this`bufferLen, this`message, state, buffer
      ensures Valid()
      ensures Seen() == After(old(Seen()), Call.Update(data))
    {
      hide Compress, InitialHash;
      if finalized {
        return;
      }
      for i := 0 to |data|
        invariant Valid()
        invariant message == old(message) + data[..i]
      {
        Put(data[i]);
      }
    }

    /** The zero-filling loops of finalize. */
    method FillZeros(end: nat)
      requires buffer.Length == 64 && bufferLen <= end <= 64
      modifies this`bufferLen, buffer
      ensures bufferLen == end
      ensures buffer[..end] == old(buffer[..bufferLen]) + Zeros(end - old(bufferLen))
    {
      ghost var start := bufferLen;
      while bufferLen < end
        invariant start <= bufferLen <= end
        invariant buffer[..bufferLen] == old(buffer[..bufferLen]) + Zeros(bufferLen - start)
      {
        buffer[bufferLen] := 0;
        bufferLen := bufferLen + 1;
      }
    }

    /** The length loop of finalize. */
    method WriteLength(bits: nat)
      requires buffer.Length == 64
      modifies buffer
      ensures buffer[..56] == old(buffer[..56])
      ensures AreDigits(256, Digits(256, bits, 8)) && buffer[56..] == ToBytes(Digits(256, bits, 8))
    {
      DigitsAreDigits(256, bits, 8);
      for i := 0 to 8
        invariant buffer[..56] == old(buffer[..56])
        invariant forall j :: 0 <= j < i ==> buffer[56 + j] as nat == Digits(256, bits, 8)[j]
      {
        DigitAt(256, bits, 8, 7 - i);
        buffer[56 + i] := Remainder(ShiftRight(256, bits, 7 - i), 256) as Byte;
      }
    }

    /** One more block, zero-filled and closed with the length field, completes the padded message. */
    ghost predicate NeedsLastBlock()
      requires state.Length == 8 && buffer.Length == 64
      reads this, state, buffer
    {
      && bufferLen <= 56
      && Fold(Compress, InitialHash(), Pad(message)) ==
         Compress(state[..], LastBlock(buffer[..bufferLen], LengthField(|message|)))
    }

    /** The marker byte of finalize, and its extra block when the length field does not fit. */
    method BeginPadding()
      requires Valid() && !finalized
      modifies this`bufferLen, state, buffer
      ensures NeedsLastBlock()
    {
      hide Compress, InitialHash, Fed, Fold, Pad, BitCount, LengthField, LastBlock;
      Store(0x80);
      if bufferLen > 56 {
        FillZeros(64);
        assert buffer[..] == buffer[..64];
        PadTwoBlocks(message, buffer[..]);
        Transform();
        bufferLen := 0;
        assert buffer[..0] == [];
      } else {
        PadOneBlock(message);
      }
    }

    /** The zeros and the length field that close the last block. */
    method CloseBlock(bits: nat)
      requires buffer.Length == 64 && bufferLen <= 56
      modifies this`bufferLen, buffer
      ensures AreDigits(256, Digits(256, bits, 8))
      ensures buffer[..] == LastBlock(old(buffer[..bufferLen]), ToBytes(Digits(256, bits, 8)))
    {
      hide Zeros, Digits;
      FillZeros(56);
      WriteLength(bits);
      assert buffer[..] == buffer[..56] + buffer[56..];
    }

    method Finalize()
      requires Valid()
      modifies this`bufferLen, this`finalized, state, buffer
      ensures Valid() && finalized
    {
      hide Compress, InitialHash, Fed, Fold, Pad, BitCount, LastBlock, Digits;
      if finalized {
        return;
      }
      CountRest(message);
      var bits := (bitCount + bufferLen * 8) % TWO64;
      BeginPadding();
      CloseBlock(bits);
      Transform();
      finalized := true;
    }

    /** The body of digest's loop. */
    method StoreWord(result: array<Byte>, i: nat)
      requires i < state.Length && 4 * i + 4 <= result.Length
      modifies result
      ensures result[..4 * i + 4] == old(result[..4 * i]) + WordBytes(old(state[i]))
    {
      hide ByteAbove;
      var w := state[i];
      result[i * 4] := ByteAbove(w, 24);
      result[i * 4 + 1] := ByteAbove(w, 16);
      result[i * 4 + 2] := ByteAbove(w, 8);
      result[i * 4 + 3] := ByteAbove(w, 0);
    }

    method Digest() returns (result: array<Byte>)
      requires Valid()
      modifies this`bufferLen, this`finalized, state, buffer
      ensures Valid() && Seen() == After(old(Seen()), Call.Digest)
      ensures fresh(result) && result[..] == Sha256Of(message)
    {
      hide Compress, InitialHash, Fed, Fold, Pad, WordBytes;
      Finalize();
      ghost var words := state[..];
      result := new Byte[32];
      for i := 0 to 8
        invariant Valid() && finalized && state[..] == words
        invariant result[..4 * i] == Serialize(words[..i])
      {
        assert words[..i + 1][..i] == words[..i];
        StoreWord(result, i);
      }
      assert words[..8] == words && result[..32] == result[..];
    }

    method HexDigest() returns (result: Bytes)
      requires Valid()
      modifies this`bufferLen, this`finalized, state, buffer
      ensures Valid() && Seen() == After(old(Seen()), Call.Digest)
      ensures result == Hex(Sha256Of(message))
    {
      hide Sha256Of, HexDigit, Compress, InitialHash, Fed, Fold, Pad, BitCount, Sha256.Valid;
      var d := Digest();
      result := [];
      for i := 0 to 32
        invariant Valid() && Seen() == After(old(Seen()), Call.Digest) && d[..] == Sha256Of(message)
        invariant result == Hex(d[..i])
      {
        assert d[..i + 1][..i] == d[..i];
        result := result + [HexDigit(d[i] / 16 % 16)];
        result := result + [HexDigit(d[i] % 16)];
      }
      assert d[..32] == d[..];
    }
  }

  // ----- the one-call forms

  method Hash(data: Bytes) returns (result: Bytes)
    ensures result == Hex(Sha256Of(data))
  {
    hide Sha256Of, Hex, Compress, InitialHash, Fed, Fold, Pad, BitCount, Sha256.Valid;
    var sha := new Sha256();
    sha.Update(data);
    assert [] + data == data;
    result := sha.HexDigest();
  }

  method HashBytes(data: Bytes) returns (result: Bytes)
    ensures result == Sha256Of(data)
  {
    hide Sha256Of, Hex, Compress, InitialHash, Fed, Fold, Pad, BitCount, Sha256.Valid;
    var sha := new Sha256();
    sha.Update(data);
    assert [] + data == data;
    var d := sha.Digest();
    result := d[..];
  }

  // ----- whole runs of an object

  lemma AnswersStep(hash: Bytes -> Bytes, v: View, calls: seq<Call>, i: nat)
    requires i < |calls|
    ensures Answers(hash, v, calls[i..]) ==
            (if calls[i].Digest? then [hash(v.message)] else []) + Answers(hash, After(v, calls[i]), calls[i + 1..])
  {
    assert calls[i..][1..] == calls[i + 1..];
  }

  /** One call of an object. */
  method Perform(sha: Sha256, call: Call) returns (answer: seq<Bytes>)
    requires sha.Valid()
    modifies sha`bitCount, sha`bufferLen, sha`finalized, sha`message, sha.state, sha.buffer
    ensures sha.Valid() && sha.Seen() == After(old(sha.Seen()), call)
    ensures answer == if call.Digest? then [Sha256Of(old(sha.message))] else []
  {
    hide Sha256Of, Compress, InitialHash, Fed, Fold, Pad, BitCount, Sha256.Valid;
    match call
    case Update(data) =>
      sha.Update(data);
      answer := [];
    case Digest =>
      var d := sha.Digest();
      answer := [d[..]];
  }

  /** A new hash object driven through any calls: each digest is the SHA-256 of the data before the first one. */
  method RunCalls(calls: seq<Call>) returns (answers: seq<Bytes>)
    ensures answers == Answers(Sha256Of, View([], false), calls)
    ensures forall i :: 0 <= i < |answers| ==> answers[i] == Sha256Of(Accepted(calls))
  {
    hide Sha256Of, Answers, After, Sha256.Valid, Accepted;
    var sha := new Sha256();
    answers := [];
    ghost var whole := Answers(Sha256Of, View([], false), calls);
    assert calls[0..] == calls && [] + whole == whole;
    for i := 0 to |calls|
      invariant fresh(sha) && fresh(sha.state) && fresh(sha.buffer) && sha.Valid()
      invariant answers + Answers(Sha256Of, sha.Seen(), calls[i..]) == whole
    {
      AnswersStep(Sha256Of, sha.Seen(), calls, i);
      ghost var before := answers;
      var answer := Perform(sha, calls[i]);
      answers := answers + answer;
      ghost var others := Answers(Sha256Of, sha.Seen(), calls[i + 1..]);
      assert before + (answer + others) == answers + others;
    }
    NoAnswers(sha.Seen());
    assert calls[|calls|..] == [] && answers + [] == answers;
    forall i | 0 <= i < |answers| ensures answers[i] == Sha256Of(Accepted(calls)) {
      EveryDigest(calls, i);
    }
  }

  lemma NoAnswers(v: View)
    ensures Answers(Sha256Of, v, []) == []
  {
  }
}
