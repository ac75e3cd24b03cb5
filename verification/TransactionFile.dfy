/**
 Whole files of src/persistence/TransactionRepository.cpp: what is loaded from which bytes, and what
 from the beginning of a written file; the sequential writer and reader.
 */
module TransactionFile {
  import opened Machine
  import opened Octets
  import opened TransactionBytes
  import Radix

  /** The loop of loadFromFile: it ends with the count or with the stream. */
  function ReadRecords(s: Stream, count: nat, left: Leftovers): seq<Transaction>
    decreases count
  {
    if count == 0 || !s.good then []
    else
      var r := ReadRecord(s, left);
      [r.tx] + ReadRecords(r.behind, count - 1, left)
  }

  /** The list the source builds from a file: empty when not even the count can be read. */
  function Loaded(b: Bytes, left: Leftovers): seq<Transaction> {
    if |b| < 8 then [] else ReadRecords(Stream(b[8..], true), AsSize(b[..8]), left)
  }

  // ----- one record of a file

  /** The bytes end inside the record t: what is missing of it is the fallback's. */
  predicate FillsUp(b: Bytes, left: Leftovers, t: Transaction) {
    |b| < |Record(t)| && Record(t) == b + Fallback(t, left)[|b|..]
  }

  lemma WholeExactly(b: Bytes, left: Leftovers, t: Transaction, rest: Bytes)
    ensures ReadRecord(Stream(b, true), left) == RecordRead(t, Stream(rest, true)) <==> b == Record(t) + rest
  {
    hide Record, Fallback, ReadRecord;
    RecordExactly(Stream(b, true), left, t, Stream(rest, true));
    if b == Record(t) + rest {
      assert b[..|Record(t)|] == Record(t) && b[|Record(t)|..] == rest;
    }
    if Record(t) <= b {
      assert b == Record(t) + b[|Record(t)|..];
    }
  }

  lemma CutExactly(b: Bytes, left: Leftovers, t: Transaction)
    ensures ReadRecord(Stream(b, true), left) == RecordRead(t, Stream([], false)) <==> FillsUp(b, left, t)
  {
    hide Record, Fallback, ReadRecord;
    RecordExactly(Stream(b, true), left, t, Stream([], false));
  }

  lemma ReadEnds(b: Bytes, left: Leftovers)
    ensures var r := ReadRecord(Stream(b, true), left);
            if r.behind.good then b == Record(r.tx) + r.behind.bytes
            else r.behind == Stream([], false) && FillsUp(b, left, r.tx)
  {
    hide Record, Fallback, ReadRecord, FillsUp;
    var r := ReadRecord(Stream(b, true), left);
    RecordExactly(Stream(b, true), left, r.tx, r.behind);
    WholeExactly(b, left, r.tx, r.behind.bytes);
    CutExactly(b, left, r.tx);
  }

  // ----- whole files

  lemma {:induction false} RecordsRoundTrip(txs: seq<Transaction>, rest: Bytes, left: Leftovers)
    ensures ReadRecords(Stream(Records(txs) + rest, true), |txs|, left) == txs
  {
    hide Record, ReadRecord;
    if txs == [] {
    } else {
      assert Records(txs) + rest == Record(txs[0]) + (Records(txs[1..]) + rest);
      WholeExactly(Records(txs) + rest, left, txs[0], Records(txs[1..]) + rest);
      RecordsRoundTrip(txs[1..], rest, left);
      assert txs == [txs[0]] + txs[1..];
    }
  }

  /** Loading what was saved rebuilds the list, whatever follows it in the file. */
  lemma FileRoundTrip(txs: seq<Transaction>, junk: Bytes, left: Leftovers)
    requires |txs| < TWO64
    ensures Loaded(Serialized(txs) + junk, left) == txs
  {
    hide Size, AsSize, ReadRecords, Records;
    var b := Serialized(txs) + junk;
    assert b == Size(|txs|) + (Records(txs) + junk);
    assert b[..8] == Size(|txs|) && b[8..] == Records(txs) + junk;
    SizeValue(|txs|);
    RecordsRoundTrip(txs, junk, left);
  }

  /** The records of a file that promises more than it has and ends inside the last record of the list. */
  predicate EndsInside(b: Bytes, count: nat, left: Leftovers, txs: seq<Transaction>) {
    0 < |txs| <= count &&
    var known := Records(txs[..|txs| - 1]);
    known <= b && FillsUp(b[|known|..], left, txs[|txs| - 1])
  }

  lemma EndsInsideBounds(b: Bytes, count: nat, left: Leftovers, txs: seq<Transaction>)
    requires EndsInside(b, count, left, txs)
    ensures 0 < |txs| <= count
  {
  }

  lemma EndsInsideOne(b: Bytes, count: nat, left: Leftovers, t: Transaction)
    requires 0 < count
    ensures EndsInside(b, count, left, [t]) <==> FillsUp(b, left, t)
  {
    hide FillsUp;
    assert [t][..0] == [] && b[0..] == b;
  }

  lemma EndsInsideCons(t: Transaction, b: Bytes, count: nat, left: Leftovers, txs: seq<Transaction>)
    requires txs != []
    ensures EndsInside(Record(t) + b, count + 1, left, [t] + txs) <==> EndsInside(b, count, left, txs)
  {
    hide Record, FillsUp;
    var all, n := [t] + txs, |txs|;
    assert all[..n][0] == t && all[..n][1..] == txs[..n - 1];
    PrefixCons(Record(t), Records(txs[..n - 1]), b);
  }

  lemma PrefixCons(a: Bytes, p: Bytes, b: Bytes)
    ensures a + p <= a + b <==> p <= b
    ensures p <= b ==> (a + b)[|a + p|..] == b[|p|..]
  {
    if p <= b {
      assert a + b == a + p + b[|p|..];
    }
    if a + p <= a + b {
      assert (a + b)[|a|..] == b && (a + p)[|a|..] == p;
      assert forall i :: 0 <= i < |p| ==> p[i] == (a + p)[|a| + i] == (a + b)[|a| + i] == b[i];
    }
  }

  lemma {:induction false} RecordsRead(b: Bytes, count: nat, left: Leftovers)
    ensures var txs := ReadRecords(Stream(b, true), count, left);
            (|txs| == count && Records(txs) <= b) || EndsInside(b, count, left, txs)
    decreases count
  {
    hide Record, ReadRecord, EndsInside, FillsUp;
    if count == 0 {
    } else {
      var first := ReadRecord(Stream(b, true), left);
      var others := ReadRecords(first.behind, count - 1, left);
      ReadEnds(b, left);
      if first.behind.good {
        RecordsRead(first.behind.bytes, count - 1, left);
        assert ([first.tx] + others)[1..] == others;
        if others != [] {
          EndsInsideCons(first.tx, first.behind.bytes, count - 1, left, others);
        } else if EndsInside(first.behind.bytes, count - 1, left, others) {
          EndsInsideBounds(first.behind.bytes, count - 1, left, others);
        }
      } else {
        assert [first.tx] + others == [first.tx];
        EndsInsideOne(b, count, left, first.tx);
      }
    }
  }

  lemma EndsInsideStarts(b: Bytes, count: nat, left: Leftovers, txs: seq<Transaction>)
    requires |txs| > 1 && EndsInside(b, count, left, txs)
    ensures Record(txs[0]) <= b
  {
    hide FillsUp, Record;
    var init := txs[..|txs| - 1];
    assert init[0] == txs[0];
    assert Records(init) <= b;
  }

  lemma ReadRecordsStep(b: Bytes, count: nat, left: Leftovers)
    requires count > 0
    ensures var r := ReadRecord(Stream(b, true), left);
            ReadRecords(Stream(b, true), count, left) == [r.tx] + ReadRecords(r.behind, count - 1, left)
    ensures forall n: nat :: ReadRecords(Stream([], false), n, left) == []
  {
    hide ReadRecord;
  }

  lemma {:induction false} EndsInsideReads(b: Bytes, count: nat, left: Leftovers, txs: seq<Transaction>)
    requires EndsInside(b, count, left, txs)
    ensures ReadRecords(Stream(b, true), count, left) == txs
    decreases count
  {
    hide *;
    EndsInsideBounds(b, count, left, txs);
    ReadRecordsStep(b, count, left);
    var t, others := txs[0], txs[1..];
    assert txs == [t] + others;
    if |txs| == 1 {
      assert txs == [t] && others == [];
      EndsInsideOne(b, count, left, t);
      CutExactly(b, left, t);
    } else {
      EndsInsideStarts(b, count, left, txs);
      var behind := b[|Record(t)|..];
      assert b == Record(t) + behind;
      EndsInsideCons(t, behind, count - 1, left, others);
      WholeExactly(b, left, t, behind);
      EndsInsideReads(behind, count - 1, left, others);
    }
  }

  predicate CutShort(b: Bytes, left: Leftovers, txs: seq<Transaction>) {
    |b| >= 8 && EndsInside(b[8..], AsSize(b[..8]), left, txs)
  }

  lemma LoadedStarts(b: Bytes, left: Leftovers)
    requires |b| >= 8
    ensures Serialized(Loaded(b, left)) <= b || CutShort(b, left, Loaded(b, left))
  {
    hide Records, ReadRecords, Size, AsSize, EndsInside;
    var txs := Loaded(b, left);
    RecordsRead(b[8..], AsSize(b[..8]), left);
    if Records(txs) <= b[8..] && |txs| == AsSize(b[..8]) {
      SizeOfValue(b[..8]);
      assert b == Size(|txs|) + b[8..];
    }
  }

  lemma StartsLoad(b: Bytes, left: Leftovers, txs: seq<Transaction>)
    requires |txs| < TWO64 && Serialized(txs) <= b
    ensures Loaded(b, left) == txs
  {
    hide Serialized, Loaded;
    var junk := b[|Serialized(txs)|..];
    assert b == Serialized(txs) + junk;
    FileRoundTrip(txs, junk, left);
  }

  /**
   Whatever the uninitialised variables held: a file loads to a list exactly when it starts with that
   list's bytes, when it ends inside the list's last record and the fallback fills it up to it, or
   when it holds no count at all and the list is empty.
   */
  lemma LoadsExactly(b: Bytes, left: Leftovers, txs: seq<Transaction>)
    requires |txs| < TWO64
    ensures Loaded(b, left) == txs <==>
            if |b| < 8 then txs == [] else Serialized(txs) <= b || CutShort(b, left, txs)
  {
    hide Serialized, EndsInside, ReadRecords;
    if |b| >= 8 {
      LoadedStarts(b, left);
      if Serialized(txs) <= b {
        StartsLoad(b, left, txs);
      }
      if CutShort(b, left, txs) {
        EndsInsideReads(b[8..], AsSize(b[..8]), left, txs);
      }
    }
  }

  // ----- which files leave nothing to the uninitialised variables

  /** The number of bytes of a record up to its status: behind it the fallback is always the same. */
  function StatusEnd(t: Transaction): nat { |TextBytes(t.id)| + |TextBytes(t.paymentMethod)| + 12 }

  /** The part of the last record that the file holds reaches behind its status. */
  predicate StatusHeld(b: Bytes, txs: seq<Transaction>) {
    txs != [] && 8 + |Records(txs[..|txs| - 1])| + StatusEnd(txs[|txs| - 1]) <= |b|
  }

  lemma FiveParts(a: Bytes, b: Bytes, c: Bytes, d: Bytes, e: Bytes)
    requires d != []
    ensures var all, n := a + (b + (c + (d + e))), |a| + |b| + |c| + |d|;
            all[n..] == e && all[n - 1] == d[|d| - 1]
  {
    var all := a + (b + (c + (d + e)));
    assert all == (a + b + c + d) + e;
  }

  lemma FallbackBehind(t: Transaction, left: Leftovers)
    ensures StatusEnd(t) <= |Fallback(t, left)|
    ensures Fallback(t, left)[StatusEnd(t)..] == (Size(|t.paymentMethod|) + Zeros(|t.description|)) + Zeros(8)
    ensures Fallback(t, left)[StatusEnd(t) - 1] == left.status[3]
  {
    hide Size, Zeros;
    FiveParts(left.strLen + Zeros(|t.id|), Size(|t.id|) + Zeros(|t.paymentMethod|), left.cents, left.status,
              (Size(|t.paymentMethod|) + Zeros(|t.description|)) + Zeros(8));
  }

  lemma FillsUpAnyway(b: Bytes, t: Transaction, left: Leftovers, other: Leftovers)
    requires FillsUp(b, left, t) && StatusEnd(t) <= |b|
    ensures FillsUp(b, other, t)
  {
    hide Record, Fallback;
    FallbackBehind(t, left);
    FallbackBehind(t, other);
    var f, g, n := Fallback(t, left), Fallback(t, other), StatusEnd(t);
    assert f[|b|..] == f[n..][|b| - n..] && g[|b|..] == g[n..][|b| - n..];
  }

  lemma FillsUpStatus(b: Bytes, t: Transaction, left: Leftovers)
    requires FillsUp(b, left, t) && |b| < StatusEnd(t)
    ensures StatusEnd(t) <= |Record(t)| && Record(t)[StatusEnd(t) - 1] == left.status[3]
  {
    hide Record, Fallback;
    FallbackBehind(t, left);
    var n := StatusEnd(t) - 1;
    assert Record(t)[n] == Fallback(t, left)[|b|..][n - |b|];
  }

  lemma FillsUpOnce(b: Bytes, t: Transaction, left: Leftovers, other: Leftovers)
    requires FillsUp(b, left, t) && FillsUp(b, other, t) && |b| < StatusEnd(t)
    ensures left.status[3] == other.status[3]
  {
    hide FillsUp, Record;
    FillsUpStatus(b, t, left);
    FillsUpStatus(b, t, other);
  }

  /**
   A file loads to the same list whatever the uninitialised variables held, exactly when it starts
   with that list's bytes, ends behind the status of the list's last record, or holds no count.
   */
  lemma DeterminedExactly(b: Bytes, left: Leftovers, txs: seq<Transaction>)
    requires |txs| < TWO64
    ensures (forall other :: Loaded(b, other) == txs) <==>
            if |b| < 8 then txs == []
            else Serialized(txs) <= b || (CutShort(b, left, txs) && StatusHeld(b, txs))
  {
    hide Loaded, Serialized, FillsUp, Record, Records;
    LoadsExactly(b, left, txs);
    if |b| >= 8 && !(Serialized(txs) <= b) && CutShort(b, left, txs) {
      var known, last := Records(txs[..|txs| - 1]), txs[|txs| - 1];
      var held := b[8..][|known|..];
      if StatusHeld(b, txs) {
        forall other ensures Loaded(b, other) == txs {
          FillsUpAnyway(held, last, left, other);
          LoadsExactly(b, other, txs);
        }
      } else {
        var flipped := if left.status[3] == 0 then 1 else 0;
        var other := left.(status := left.status[3 := flipped]);
        LoadsExactly(b, other, txs);
        if FillsUp(held, other, last) {
          FillsUpOnce(held, last, left, other);
        }
        assert Loaded(b, other) != txs;
      }
    } else if |b| < 8 || Serialized(txs) <= b {
      forall other ensures Loaded(b, other) == txs <==> Loaded(b, left) == txs {
        LoadsExactly(b, other, txs);
      }
    }
  }

  // ----- a written file that lost its end

  lemma {:induction false} RecordsConcat(a: seq<Transaction>, b: seq<Transaction>)
    ensures Records(a + b) == Records(a) + Records(b)
  {
    hide Record;
    if a == [] {
      assert a + b == b;
    } else {
      assert (a + b)[1..] == a[1..] + b;
      RecordsConcat(a[1..], b);
    }
  }

  lemma OneRecord(t: Transaction)
    ensures Records([t]) == Record(t)
  {
    hide Record;
    assert [t][1..] == [] && Record(t) + [] == Record(t);
  }

  /** Where the last record of a written file lies. */
  lemma LastRecord(txs: seq<Transaction>, t: Transaction)
    ensures Serialized(txs + [t]) == Size(|txs| + 1) + Records(txs) + Record(t)
  {
    hide Record, Records;
    RecordsConcat(txs, [t]);
    OneRecord(t);
  }

  /** A file that ends k bytes into its last record loads to what these fill up to. */
  lemma CutLoads(txs: seq<Transaction>, t: Transaction, k: nat, left: Leftovers, u: Transaction)
    requires |txs| + 1 < TWO64 && k < |Record(t)| && FillsUp(Record(t)[..k], left, u)
    ensures var file := Serialized(txs + [t]);
            |Record(t)| <= |file| && Loaded(file[..|file| - |Record(t)| + k], left) == txs + [u]
  {
    hide Record, Records, Size, AsSize, FillsUp, Loaded;
    LastRecord(txs, t);
    var known, held, list := Records(txs), Record(t)[..k], txs + [u];
    var file := Serialized(txs + [t]);
    var b := file[..|file| - |Record(t)| + k];
    assert b == Size(|txs| + 1) + (known + held);
    assert b[..8] == Size(|txs| + 1) && b[8..] == known + held;
    SizeValue(|txs| + 1);
    assert list[..|list| - 1] == txs && list[|list| - 1] == u && (known + held)[|known|..] == held;
    LoadsExactly(b, left, list);
  }

  lemma {:induction false} LowBytes(v: nat, n: nat, k: nat)
    requires k <= n
    ensures Unlittle(Little(v, n)[..k] + Zeros(n - k)) == v % Capacity(k)
  {
    var low := Little(v, n)[..k] + Zeros(n - k);
    if k > 0 {
      LowBytes(v / 256, n - 1, k - 1);
      assert low[1..] == Little(v / 256, n - 1)[..k - 1] + Zeros(n - k);
      LowDigit(v, Capacity(k - 1));
    } else {
      UnlittleOfZeros(n);
      assert low == Zeros(n);
    }
  }

  lemma {:induction false} UnlittleOfZeros(n: nat)
    ensures Unlittle(Zeros(n)) == 0
  {
    if n > 0 {
      assert Zeros(n)[1..] == Zeros(n - 1);
      UnlittleOfZeros(n - 1);
    }
  }

  /** The beginning of a timestamp's bytes, filled up with zeros. */
  function LowTime(x: Int64, k: nat): Int64
    requires k < 8
  {
    AsLong(LongBytes(x)[..k] + Zeros(8 - k))
  }

  lemma LowTimeMeaning(x: Int64, k: nat)
    requires k < 8
    ensures LowTime(x, k) == Unsigned(x, TWO64) % Capacity(k)
    ensures LowTime(x, k) == x <==> 0 <= x < Capacity(k)
  {
    var v := Unsigned(x, TWO64);
    LowBytes(v, 8, k);
    SmallCapacity(k);
    hide Little, Unlittle, Capacity;
    var m := v % Capacity(k);
    assert 0 <= m < Capacity(k);
    if 0 <= x < Capacity(k) {
      Radix.ModUnique(v, Capacity(k), 0, v);
    }
  }

  lemma {:induction false} SmallCapacity(k: nat)
    requires k < 8
    ensures Capacity(k) <= 0x100_0000_0000_0000
  {
    assert Capacity(3) == 0x100_0000;
    assert Capacity(6) == 0x1_0000_0000_0000;
  }

  lemma AtLeastEight(t: Transaction)
    ensures |Record(t)| >= 8
  {
  }

  lemma TimestampFillsUp(t: Transaction, k: nat, left: Leftovers)
    requires k < 8
    ensures |Record(t)| >= 8
    ensures FillsUp(Record(t)[..|Record(t)| - 8 + k], left, t.(timestamp := LowTime(t.timestamp, k)))
  {
    hide Record, Fallback, LongBytes, AsLong, Zeros;
    var u := t.(timestamp := LowTime(t.timestamp, k));
    LongOfValue(LongBytes(t.timestamp)[..k] + Zeros(8 - k));
    RecordEnd(t, left);
    RecordEnd(u, left);
    var m := |Record(t)| - 8;
    var front := Record(t)[..m];
    SameFront(t, LowTime(t.timestamp, k));
    assert Record(t) == front + LongBytes(t.timestamp) && Record(u) == front + LongBytes(u.timestamp);
    assert Record(t)[..m + k] == front + LongBytes(t.timestamp)[..k];
    assert Fallback(u, left)[m + k..] == Fallback(u, left)[m..][k..] == Zeros(8)[k..];
    ZerosBehind(8, k);
    assert front + (LongBytes(t.timestamp)[..k] + Zeros(8 - k)) == front + LongBytes(t.timestamp)[..k] + Zeros(8 - k);
  }

  lemma ZerosBehind(n: nat, k: nat)
    requires k <= n
    ensures Zeros(n)[k..] == Zeros(n - k)
  {
  }

  lemma RecordEnd(t: Transaction, left: Leftovers)
    ensures var n := |Record(t)| - 8;
            0 <= n && Record(t)[n..] == LongBytes(t.timestamp) && Fallback(t, left)[n..] == Zeros(8)
  {
  }

  lemma SameFront(t: Transaction, x: Int64)
    ensures var u, n := t.(timestamp := x), |Record(t)| - 8;
            |Record(u)| == |Record(t)| >= 8 && Record(u)[..n] == Record(t)[..n]
  {
    hide TextBytes, LongBytes, IntBytes;
  }

  /**
   A file that lost some of its last eight bytes is loaded without complaint: of the last timestamp
   the low k bytes remain, so the list is the one that was saved exactly when they hold the timestamp.
   */
  lemma LostTimestampBytes(txs: seq<Transaction>, t: Transaction, k: nat, left: Leftovers)
    requires |txs| + 1 < TWO64 && k < 8
    ensures var file := Serialized(txs + [t]);
            && |file| >= 8 && LowTime(t.timestamp, k) == Unsigned(t.timestamp, TWO64) % Capacity(k)
            && Loaded(file[..|file| - 8 + k], left) == txs + [t.(timestamp := LowTime(t.timestamp, k))]
            && (Loaded(file[..|file| - 8 + k], left) == txs + [t] <==> 0 <= t.timestamp < Capacity(k))
  {
    hide *;
    LowTimeMeaning(t.timestamp, k);
    TimestampFillsUp(t, k, left);
    AtLeastEight(t);
    LastRecord(txs, t);
    var u := t.(timestamp := LowTime(t.timestamp, k));
    CutLoads(txs, t, |Record(t)| - 8 + k, left, u);
    assert (txs + [t])[|txs|] == t && (txs + [u])[|txs|] == u;
  }

  /** The record of which a file holds only the first k characters of the id. */
  function CutId(id: Text, k: nat, left: Leftovers): Transaction
    requires k <= |id|
  {
    var zeros := Zeros(|id|);
    Transaction(id[..k] + Zeros(|id| - k), zeros, AsLong(left.cents), AsInt(left.status), zeros, 0)
  }

  lemma ZeroTime()
    ensures LongBytes(0) == Zeros(8)
  {
    LittleOfZero(8);
  }

  lemma {:induction false} LittleOfZero(n: nat)
    ensures Little(0, n) == Zeros(n)
  {
    if n > 0 {
      LittleOfZero(n - 1);
    }
  }

  lemma CutIdFillsUp(t: Transaction, k: nat, left: Leftovers)
    requires k <= |t.id|
    ensures 8 + k < |Record(t)| && FillsUp(Record(t)[..8 + k], left, CutId(t.id, k, left))
  {
    hide Size, LongBytes, IntBytes, AsLong, AsInt, Zeros;
    var u, n := CutId(t.id, k, left), |t.id|;
    ZeroTime();
    LongOfValue(left.cents);
    IntOfValue(left.status);
    var rest := (Size(n) + Zeros(n)) + (left.cents + (left.status + ((Size(n) + Zeros(n)) + Zeros(8))));
    assert Record(u) == (Size(n) + u.id) + rest && Fallback(u, left) == (left.strLen + Zeros(n)) + rest;
    ZerosBehind(n, k);
    CutText(Size(n), t.id[..k], left.strLen, Zeros(n), rest);
    HeldOfRecord(t, k);
  }

  lemma CutText(size: Eight, part: Bytes, over: Eight, zeros: Bytes, rest: Bytes)
    requires |part| <= |zeros|
    ensures (size + (part + zeros[|part|..])) + rest == (size + part) + ((over + zeros) + rest)[8 + |part|..]
  {
    assert (over + zeros)[8 + |part|..] == zeros[|part|..];
    assert ((over + zeros) + rest)[8 + |part|..] == zeros[|part|..] + rest;
  }

  lemma HeldOfRecord(t: Transaction, k: nat)
    requires k <= |t.id|
    ensures 8 + k < |Record(t)| && Record(t)[..8 + k] == Size(|t.id|) + t.id[..k]
  {
    hide Size, LongBytes, IntBytes;
  }

  /** A file that ends inside an id, or right behind it, is loaded with zeros for the rest of the id. */
  lemma CutIdLoads(txs: seq<Transaction>, t: Transaction, k: nat, left: Leftovers)
    requires |txs| + 1 < TWO64 && k <= |t.id|
    ensures var file := Serialized(txs + [t]);
            && 8 + k < |Record(t)| <= |file|
            && Loaded(file[..|file| - |Record(t)| + 8 + k], left) == txs + [CutId(t.id, k, left)]
  {
    hide *;
    CutIdFillsUp(t, k, left);
    CutLoads(txs, t, 8 + k, left, CutId(t.id, k, left));
  }

  // ----- any beginning of a written file

  /** Read from the beginning b of written records: whole ones, and at the end perhaps one filled up. */
  predicate Resembles(b: Bytes, left: Leftovers, txs: seq<Transaction>, written: seq<Transaction>) {
    |txs| <= |written| &&
    (txs != [] ==>
       var k := |txs| - 1;
       var known := Records(written[..k]);
       txs[..k] == written[..k] && known <= b &&
       var held := b[|known|..];
       if held < Record(written[k]) then FillsUp(held, left, txs[k]) else txs[k] == written[k])
  }

  lemma ResemblesOne(b: Bytes, left: Leftovers, t: Transaction, written: seq<Transaction>)
    requires written != []
    requires if b < Record(written[0]) then FillsUp(b, left, t) else t == written[0]
    ensures Resembles(b, left, [t], written)
  {
    hide FillsUp, Record;
    assert [t][..0] == [] == written[..0] && b[0..] == b;
  }

  lemma ResemblesCons(b: Bytes, left: Leftovers, txs: seq<Transaction>, t: Transaction, written: seq<Transaction>)
    requires txs != [] && Resembles(b, left, txs, written)
    ensures Resembles(Record(t) + b, left, [t] + txs, [t] + written)
  {
    hide FillsUp, Record;
    var all, k := [t] + written, |txs| - 1;
    assert ([t] + txs)[..k + 1] == [t] + txs[..k] && all[..k + 1] == [t] + written[..k];
    assert all[..k + 1][0] == t && all[..k + 1][1..] == written[..k];
    PrefixCons(Record(t), Records(written[..k]), b);
  }

  lemma NoRecordInside(t: Transaction, b: Bytes, left: Leftovers)
    requires b < Record(t)
    ensures !ReadRecord(Stream(b, true), left).behind.good
  {
    hide Record, ReadRecord, FillsUp;
    ReadEnds(b, left);
    var r := ReadRecord(Stream(b, true), left);
    if r.behind.good {
      var lost := Record(t)[|b|..];
      assert Record(t) == Record(t) + [] == Record(r.tx) + (r.behind.bytes + lost);
      WholeExactly(Record(t), left, t, []);
      WholeExactly(Record(t), left, r.tx, r.behind.bytes + lost);
      assert false;
    }
  }

  lemma {:induction false} CutRecordsLoad(b: Bytes, count: nat, left: Leftovers, written: seq<Transaction>)
    requires b <= Records(written) && count <= |written|
    ensures Resembles(b, left, ReadRecords(Stream(b, true), count, left), written)
    decreases count
  {
    hide Record, ReadRecord, FillsUp, Resembles;
    if count == 0 {
      NothingResembles(b, left, written);
    } else {
      var t, others := written[0], written[1..];
      ReadRecordsStep(b, count, left);
      if Record(t) <= b {
        var behind := b[|Record(t)|..];
        assert b == Record(t) + behind && behind <= Records(others) && written == [t] + others;
        WholeExactly(b, left, t, behind);
        CutRecordsLoad(behind, count - 1, left, others);
        var txs := ReadRecords(Stream(behind, true), count - 1, left);
        if txs == [] {
          assert [t] + txs == [t];
          ResemblesOne(b, left, t, written);
        } else {
          ResemblesCons(behind, left, txs, t, others);
        }
      } else {
        assert b < Record(t);
        NoRecordInside(t, b, left);
        ReadEnds(b, left);
        var r := ReadRecord(Stream(b, true), left).tx;
        assert [r] + [] == [r];
        ResemblesOne(b, left, r, written);
      }
    }
  }

  lemma NothingResembles(b: Bytes, left: Leftovers, written: seq<Transaction>)
    ensures Resembles(b, left, [], written)
  {
  }

  /**
   From any beginning of a written file, and whatever the uninitialised variables held, come the
   written transactions in order; only the last of them may be one that was filled up.
   */
  lemma CutFileLoads(b: Bytes, left: Leftovers, written: seq<Transaction>)
    requires b <= Serialized(written)
    ensures Loaded(b, left) != [] ==> |b| >= 8 && Resembles(b[8..], left, Loaded(b, left), written)
  {
    hide Records, ReadRecords, Size, AsSize, Resembles;
    if |b| >= 8 {
      assert b[..8] == Size(|written|) && b[8..] <= Records(written);
      SizeValue(|written|);
      CutRecordsLoad(b[8..], AsSize(b[..8]), left, written);
    }
  }

  /** The file ends before the last id of the list does. */
  predicate EndsInId(b: Bytes, txs: seq<Transaction>) {
    txs != [] && |b| < 8 + |Records(txs[..|txs| - 1])| + 8 + |txs[|txs| - 1].id|
  }

  lemma SameTextBytes(a: Text, b: Text, s: Bytes)
    requires TextBytes(a) <= s && TextBytes(b) <= s
    ensures a == b
  {
    hide Size, AsSize, TextBytes;
    SizeExactly(Size(|b|), |a|);
    SizeExactly(Size(|b|), |b|);
    TextParts(a, s);
    TextParts(b, s);
  }

  lemma TextParts(a: Text, s: Bytes)
    requires TextBytes(a) <= s
    ensures s[..8] == Size(|a|) && 8 + |a| <= |s| && s[8..8 + |a|] == a
  {
    hide Size;
    var rest := s[8 + |a|..];
    assert s == Size(|a|) + (a + rest);
  }

  /** An id that the file holds to its end is the one that was written. */
  lemma IdHeld(held: Bytes, left: Leftovers, t: Transaction, written: Transaction)
    requires held < Record(written) && FillsUp(held, left, t) && 8 + |t.id| <= |held|
    ensures t.id == written.id
  {
    StartsWithId(t);
    StartsWithId(written);
    hide Record, Fallback, TextBytes;
    assert held <= Record(t) && |TextBytes(t.id)| == 8 + |t.id| by {
      TextLength(t.id);
    }
    assert TextBytes(t.id) == Record(t)[..8 + |t.id|] == held[..8 + |t.id|];
    SameTextBytes(t.id, written.id, Record(written));
  }

  lemma TextLength(s: Text)
    ensures |TextBytes(s)| == 8 + |s|
  {
  }

  lemma StartsWithId(t: Transaction)
    ensures TextBytes(t.id) <= Record(t)
  {
  }

  // ----- the sequential writer and reader

  method Save(txs: seq<Transaction>) returns (file: Bytes)
    ensures file == Serialized(txs)
  {
    hide Size, Record;
    file := Size(|txs|);
    for i := 0 to |txs|
      invariant file + Records(txs[i..]) == Serialized(txs)
    {
      ghost var before := file;
      file := SaveRecord(file, txs[i]);
      assert Records(txs[i..]) == Record(txs[i]) + Records(txs[i + 1..]);
      assert before + Record(txs[i]) + Records(txs[i + 1..]) == before + (Record(txs[i]) + Records(txs[i + 1..]));
    }
  }

  /** The loop body of saveToFile. */
  method SaveRecord(before: Bytes, tx: Transaction) returns (file: Bytes)
    ensures file == before + Record(tx)
  {
    hide Size, LongBytes, IntBytes;
    file := before;
    file := file + Size(|tx.id|);
    file := file + tx.id;
    file := file + Size(|tx.paymentMethod|);
    file := file + tx.paymentMethod;
    file := file + LongBytes(tx.cents);
    file := file + IntBytes(tx.status);
    file := file + Size(|tx.description|);
    file := file + tx.description;
    file := file + LongBytes(tx.timestamp);
  }

  /** A std::ifstream. */
  class InputFile {
    var unread: Bytes
    var good: bool

    constructor (content: Bytes)
      ensures View() == Stream(content, true)
    {
      unread, good := content, true;
    }

    ghost function View(): Stream
      reads this
    {
      Stream(unread, good)
    }

    method Read(buffer: Bytes) returns (filled: Bytes)
      modifies this
      ensures Taken(filled, View()) == Take(old(View()), buffer)
    {
      if !good {
        return buffer;
      }
      var n := if |buffer| <= |unread| then |buffer| else |unread|;
      filled := unread[..n] + buffer[n..];
      unread, good := unread[n..], n == |buffer|;
      assert filled == Take(old(View()), buffer).value;
    }
  }

  /** left is what the variables without initialiser hold at the start of each turn of the loop. */
  method Load(content: Bytes, left: Leftovers) returns (txs: seq<Transaction>)
    ensures txs == Loaded(content, left)
  {
    hide ReadRecord, AsSize;
    var file := new InputFile(content);
    var count := file.Read(left.strLen);
    txs := [];
    var i := 0;
    ghost var whole := ReadRecords(file.View(), AsSize(count), left);
    assert whole == Loaded(content, left);
    assert [] + whole == whole;
    while i < AsSize(count) && file.good
      invariant i <= AsSize(count)
      invariant txs + ReadRecords(file.View(), AsSize(count) - i, left) == whole
    {
      ghost var others := ReadRecords(ReadRecord(file.View(), left).behind, AsSize(count) - (i + 1), left);
      ghost var before := txs;
      var tx := LoadRecord(file, left);
      assert before + ([tx] + others) == before + [tx] + others;
      txs := txs + [tx];
      i := i + 1;
    }
    assert txs + [] == txs;
  }

  /** The loop body of loadFromFile. */
  method LoadRecord(file: InputFile, left: Leftovers) returns (tx: Transaction)
    modifies file
    ensures RecordRead(tx, file.View()) == ReadRecord(old(file.View()), left)
  {
    hide Take, AsLong, AsInt, Size, AsSize;
    var strLen, id := LoadText(file, left.strLen);
    var paymentMethod;
    strLen, paymentMethod := LoadText(file, strLen);
    var cents := file.Read(left.cents);
    var statusVal := file.Read(left.status);
    var description;
    strLen, description := LoadText(file, strLen);
    var duration := file.Read(Zeros(8));
    tx := Transaction(id, paymentMethod, AsLong(cents), AsInt(statusVal), description, AsLong(duration));
  }

  /** A length into strLen, a string of that many zeros, and the characters over them. */
  method LoadText(file: InputFile, before: Eight) returns (strLen: Eight, s: Text)
    modifies file
    ensures TextRead(s, file.View()) == ReadText(old(file.View()), before)
    ensures strLen == Size(|s|)
  {
    hide Take, Size, AsSize;
    strLen := file.Read(before);
    SizeOfValue(strLen);
    s := file.Read(Zeros(AsSize(strLen)));
  }
}
