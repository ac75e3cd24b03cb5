/** The transaction store of src/persistence/TransactionRepository.cpp. */
module TransactionRepository {
  import opened Options
  import opened Octets
  import opened FindIf
  import opened Machine
  import opened TransactionBytes
  import opened TransactionFile

  // ----- the list

  /** The position of the first transaction with the id, or the length of the list. */
  function IndexOf(txs: seq<Transaction>, id: Bytes): nat {
    FirstIndex(txs, (t: Transaction) => t.id == id)
  }

  function Found(txs: seq<Transaction>, id: Bytes): Option<Transaction> {
    var i := IndexOf(txs, id);
    if i < |txs| then Some(txs[i]) else None
  }

  function Saved(txs: seq<Transaction>, tx: Transaction): seq<Transaction> {
    var i := IndexOf(txs, tx.id);
    if i < |txs| then txs[i := tx] else txs + [tx]
  }

  function Removed(txs: seq<Transaction>, id: Bytes): seq<Transaction> {
    var i := IndexOf(txs, id);
    if i < |txs| then txs[..i] + txs[i + 1..] else txs
  }

  predicate DistinctIds(txs: seq<Transaction>) {
    forall i, j :: 0 <= i < j < |txs| ==> txs[i].id != txs[j].id
  }

  /** The clock ticks of system_clock in an hour: nanoseconds. */
  const HOUR: int := 3_600_000_000_000

  type Clock = now: int | -0x8000_0000_0000_0000 <= now - 48 * HOUR && now < 0x8000_0000_0000_0000

  /** The demo transactions of generateSampleData. */
  function Samples(now: Clock): seq<Transaction> {
    [
      Transaction(Ascii("CC-123456789abc"), Ascii("Credit Card"), 4999, 0,
                  Ascii("Purchase at TechStore"), now - 2 * HOUR),
      Transaction(Ascii("DB-abcdef123456"), Ascii("Debit Card"), 12500, 0,
                  Ascii("Payment to Utility Company"), now - 24 * HOUR),
      Transaction(Ascii("QR-987654321fed"), Ascii("QR Payment"), 1550, 0,
                  Ascii("Payment to CoffeeShop"), now - 48 * HOUR)
    ]
  }

  /** The demo data: two hours, a day and two days old, all successes. */
  lemma SampleList(now: Clock)
    ensures var s := Samples(now);
            && |s| == 3 && s[0].status == s[1].status == s[2].status == 0
            && s[0].id == Ascii("CC-123456789abc") && s[1].id == Ascii("DB-abcdef123456")
            && s[2].id == Ascii("QR-987654321fed")
            && s[0].cents == 4999 && s[1].cents == 12500 && s[2].cents == 1550
            && s[0].timestamp == now - 7_200_000_000_000 && s[1].timestamp == now - 86_400_000_000_000
            && s[2].timestamp == now - 172_800_000_000_000
  {
    hide Ascii;
  }

  lemma SamplesDistinct(now: Clock)
    ensures DistinctIds(Samples(now))
  {
    var s := Samples(now);
    assert s[0].id[0] == 67 && s[1].id[0] == 68 && s[2].id[0] == 81;
  }

  /** Appending the samples, as a failing reload does, keeps ids distinct exactly when none is in use. */
  lemma ReloadKeepsDistinct(txs: seq<Transaction>, now: Clock)
    requires DistinctIds(txs)
    ensures DistinctIds(txs + Samples(now)) <==>
            forall tx :: tx in Samples(now) ==> Found(txs, tx.id).None?
  {
    hide Samples;
    var s := Samples(now);
    var all := txs + s;
    SamplesDistinct(now);
    if DistinctIds(all) {
      forall tx | tx in s ensures Found(txs, tx.id).None? {
        var k :| 0 <= k < |s| && s[k] == tx;
        assert all[|txs| + k] == tx;
        forall j | 0 <= j < |txs| ensures txs[j].id != tx.id {
          assert all[j] == txs[j];
        }
      }
    }
    if forall tx :: tx in s ==> Found(txs, tx.id).None? {
      forall i, j | 0 <= i < j < |all| ensures all[i].id != all[j].id {
        if i < |txs| <= j {
          assert s[j - |txs|] in s && Found(txs, all[j].id).None?;
          NotFound(txs, all[j].id, i);
        } else if |txs| <= i {
          assert s[i - |txs|].id != s[j - |txs|].id;
        }
      }
    }
  }

  lemma NotFound(txs: seq<Transaction>, id: Bytes, i: nat)
    requires i < |txs| && Found(txs, id).None?
    ensures txs[i].id != id
  {
  }

  /** The concrete failure: a second load without a file stores every sample id twice. */
  lemma ReloadTwiceRepeats(now: Clock)
    ensures !DistinctIds([] + Samples(now) + Samples(now))
  {
    var all := [] + Samples(now) + Samples(now);
    assert all[0].id == all[3].id;
  }

  // ----- the reference: a plain map, and the ids in order of first insertion

  datatype Ledger = Ledger(order: seq<Bytes>, entries: map<Bytes, Transaction>)

  function Put(l: Ledger, tx: Transaction): Ledger {
    Ledger(if tx.id in l.entries then l.order else l.order + [tx.id], l.entries[tx.id := tx])
  }

  function Without(ids: seq<Bytes>, id: Bytes): seq<Bytes> {
    if ids == [] then [] else (if ids[0] == id then [] else [ids[0]]) + Without(ids[1..], id)
  }

  function Drop(l: Ledger, id: Bytes): Ledger {
    Ledger(Without(l.order, id), l.entries - {id})
  }

  function Ids(txs: seq<Transaction>): (ids: seq<Bytes>)
    ensures |ids| == |txs| && forall i :: 0 <= i < |txs| ==> ids[i] == txs[i].id
  {
    seq(|txs|, i requires 0 <= i < |txs| => txs[i].id)
  }

  function Entries(txs: seq<Transaction>): map<Bytes, Transaction> {
    map id | id in Ids(txs) && IndexOf(txs, id) < |txs| :: txs[IndexOf(txs, id)]
  }

  function Abstract(txs: seq<Transaction>): Ledger {
    Ledger(Ids(txs), Entries(txs))
  }

  lemma IndexIs(txs: seq<Transaction>, i: nat)
    requires DistinctIds(txs) && i < |txs|
    ensures IndexOf(txs, txs[i].id) == i
  {
    var k := IndexOf(txs, txs[i].id);
  }

  lemma IndexIsEnd(txs: seq<Transaction>, id: Bytes)
    requires forall j :: 0 <= j < |txs| ==> txs[j].id != id
    ensures IndexOf(txs, id) == |txs|
  {
  }

  /** The list is its ledger written out: nothing else is in it, and in no other order. */
  lemma ListIsLedger(txs: seq<Transaction>)
    requires DistinctIds(txs)
    ensures forall i :: 0 <= i < |txs| ==> txs[i].id in Entries(txs) && Entries(txs)[Ids(txs)[i]] == txs[i]
    ensures |Abstract(txs).order| == |txs|
    ensures forall id :: id in Entries(txs) ==> id in Ids(txs)
  {
    forall i | 0 <= i < |txs| ensures txs[i].id in Entries(txs) && Entries(txs)[Ids(txs)[i]] == txs[i] {
      IndexIs(txs, i);
      assert Ids(txs)[i] in Ids(txs);
    }
  }

  /** Lookup in the list is lookup in the map. */
  lemma FoundIsLookup(txs: seq<Transaction>, id: Bytes)
    ensures Found(txs, id) == if id in Entries(txs) then Some(Entries(txs)[id]) else None
  {
    var i := IndexOf(txs, id);
    if i < |txs| {
      assert Ids(txs)[i] in Ids(txs);
    }
  }

  /** A later transaction with another id does not disturb an entry, nor does one that is gone. */
  lemma FoundAfterSave(txs: seq<Transaction>, tx: Transaction, id: Bytes)
    requires DistinctIds(txs)
    ensures DistinctIds(Saved(txs, tx))
    ensures Found(Saved(txs, tx), id) == if id == tx.id then Some(tx) else Found(txs, id)
  {
    var s, i, k := Saved(txs, tx), IndexOf(txs, id), IndexOf(txs, tx.id);
    assert DistinctIds(s);
    if id == tx.id {
      assert s[k] == tx;
      IndexIs(s, k);
    } else if i < |txs| {
      assert s[i] == txs[i];
      IndexIs(s, i);
    } else {
      IndexIsEnd(s, id);
    }
  }

  lemma FoundAfterRemove(txs: seq<Transaction>, gone: Bytes, id: Bytes)
    requires DistinctIds(txs)
    ensures DistinctIds(Removed(txs, gone))
    ensures Found(Removed(txs, gone), id) == if id == gone then None else Found(txs, id)
  {
    var r, i, k := Removed(txs, gone), IndexOf(txs, id), IndexOf(txs, gone);
    assert DistinctIds(r);
    if id == gone || i == |txs| {
      IndexIsEnd(r, id);
    } else {
      var j := if i < k then i else if k < |txs| then i - 1 else i;
      assert r[j] == txs[i];
      IndexIs(r, j);
    }
  }

  /** save acts as a map update that keeps the place of a known id and appends a new one. */
  lemma SavedRefines(txs: seq<Transaction>, tx: Transaction)
    requires DistinctIds(txs)
    ensures DistinctIds(Saved(txs, tx)) && Abstract(Saved(txs, tx)) == Put(Abstract(txs), tx)
  {
    hide Entries;
    var s := Saved(txs, tx);
    FoundIsLookup(txs, tx.id);
    assert Ids(s) == Put(Abstract(txs), tx).order;
    var put := Entries(txs)[tx.id := tx];
    forall id ensures (id in Entries(s) <==> id in put) && (id in put ==> Entries(s)[id] == put[id]) {
      FoundAfterSave(txs, tx, id);
      FoundIsLookup(txs, id);
      FoundIsLookup(s, id);
    }
    assert Entries(s) == put;
  }

  lemma {:induction false} WithoutUnused(ids: seq<Bytes>, id: Bytes)
    requires id !in ids
    ensures Without(ids, id) == ids
  {
    if ids != [] {
      WithoutUnused(ids[1..], id);
      assert ids == [ids[0]] + ids[1..];
    }
  }

  lemma {:induction false} WithoutOne(a: seq<Bytes>, id: Bytes, b: seq<Bytes>)
    requires id !in a && id !in b
    ensures Without(a + [id] + b, id) == a + b
  {
    if a == [] {
      assert (a + [id] + b)[1..] == b;
      WithoutUnused(b, id);
      assert [] + b == b;
    } else {
      assert (a + [id] + b)[1..] == a[1..] + [id] + b;
      WithoutOne(a[1..], id, b);
      assert a + b == [a[0]] + (a[1..] + b);
    }
  }

  lemma IdsAfterRemove(txs: seq<Transaction>, id: Bytes)
    requires DistinctIds(txs)
    ensures Ids(Removed(txs, id)) == Without(Ids(txs), id)
  {
    var k := IndexOf(txs, id);
    if k < |txs| {
      var a, b := Ids(txs[..k]), Ids(txs[k + 1..]);
      assert Ids(txs) == a + [id] + b;
      assert Ids(Removed(txs, id)) == a + b;
      WithoutOne(a, id, b);
    } else {
      WithoutUnused(Ids(txs), id);
    }
  }

  /** remove acts as a deletion from the map that keeps the order of the rest. */
  lemma RemovedRefines(txs: seq<Transaction>, id: Bytes)
    requires DistinctIds(txs)
    ensures DistinctIds(Removed(txs, id)) && Abstract(Removed(txs, id)) == Drop(Abstract(txs), id)
  {
    hide Entries;
    var r := Removed(txs, id);
    IdsAfterRemove(txs, id);
    var left := Entries(txs) - {id};
    forall k ensures (k in Entries(r) <==> k in left) && (k in left ==> Entries(r)[k] == left[k]) {
      FoundAfterRemove(txs, id, k);
      FoundIsLookup(txs, k);
      FoundIsLookup(r, k);
    }
    assert Entries(r) == left;
    FoundAfterRemove(txs, id, id);
  }

  /** Transactions put one after the other. */
  function PutAll(l: Ledger, txs: seq<Transaction>): Ledger
    decreases txs
  {
    if txs == [] then l else PutAll(Put(l, txs[0]), txs[1..])
  }

  lemma PrefixDistinct(txs: seq<Transaction>, more: seq<Transaction>)
    requires DistinctIds(txs + more)
    ensures DistinctIds(txs)
    ensures more != [] ==> IndexOf(txs, more[0].id) == |txs|
  {
    var all := txs + more;
    assert forall i :: 0 <= i < |txs| ==> all[i] == txs[i];
    if more != [] {
      assert all[|txs|] == more[0];
      IndexIsEnd(txs, more[0].id);
    }
  }

  /** Appending transactions with new ids is putting them one after the other. */
  lemma {:induction false} AppendRefines(txs: seq<Transaction>, more: seq<Transaction>)
    requires DistinctIds(txs + more)
    ensures Abstract(txs + more) == PutAll(Abstract(txs), more)
    decreases more
  {
    hide DistinctIds, Abstract, Put, IndexOf;
    PrefixDistinct(txs, more);
    if more == [] {
      assert txs + more == txs;
    } else {
      assert txs + more == txs + [more[0]] + more[1..];
      SavedRefines(txs, more[0]);
      AppendRefines(txs + [more[0]], more[1..]);
    }
  }

  /** The entries in the order of the ids. */
  function Listing(order: seq<Bytes>, entries: map<Bytes, Transaction>): seq<Transaction> {
    if order == [] then []
    else (if order[0] in entries then [entries[order[0]]] else []) + Listing(order[1..], entries)
  }

  lemma {:induction false} ListingIs(order: seq<Bytes>, entries: map<Bytes, Transaction>, txs: seq<Transaction>)
    requires |order| == |txs|
    requires forall i :: 0 <= i < |order| ==> order[i] in entries && entries[order[i]] == txs[i]
    ensures Listing(order, entries) == txs
  {
    if order != [] {
      assert forall i :: 0 <= i < |order[1..]| ==> order[1..][i] == order[i + 1] && txs[1..][i] == txs[i + 1];
      ListingIs(order[1..], entries, txs[1..]);
      assert txs == [txs[0]] + txs[1..];
    }
  }

  lemma ListingOfAbstract(txs: seq<Transaction>)
    requires DistinctIds(txs)
    ensures Listing(Ids(txs), Entries(txs)) == txs
  {
    hide Entries, DistinctIds;
    ListIsLedger(txs);
    ListingIs(Ids(txs), Entries(txs), txs);
  }

  // ----- runs over object lifetimes

  /** What becomes of one use of the file: it cannot be opened, only so many bytes pass, or all do. */
  datatype Fate = Unopened | CutOff(bytes: nat) | Complete {
    predicate AllPass(b: Bytes) { Complete? || (CutOff? && |b| <= bytes) }

    function Passed(b: Bytes): (p: Bytes)
      ensures p <= b && (p == b <==> AllPass(b) || b == [])
    {
      if AllPass(b) then b else if CutOff? then b[..bytes] else []
    }
  }

  /** The list in memory and the bytes of the file, if there is a file. */
  datatype Store = Store(memory: seq<Transaction>, disk: Option<Bytes>)

  /**
   Reload is loadFromFile called from outside; Reopen destroys the object and makes a new one. Each
   load comes with what its uninitialised variables hold.
   */
  datatype Op =
    | Save(tx: Transaction, writing: Fate)
    | Remove(id: Bytes, writing: Fate)
    | Clear(writing: Fate)
    | Reload(opening: Fate, now: Clock, left: Leftovers)
    | Reopen(closing: Fate, opening: Fate, now: Clock, left: Leftovers)

  function Written(s: Store, writing: Fate): Store {
    if writing.Unopened? then s else s.(disk := Some(writing.Passed(Serialized(s.memory))))
  }

  predicate Opens(disk: Option<Bytes>, opening: Fate) { !opening.Unopened? && disk.Some? }

  function Reloaded(s: Store, opening: Fate, now: Clock, left: Leftovers): Store {
    s.(memory := if Opens(s.disk, opening) then Loaded(opening.Passed(s.disk.value), left) else s.memory + Samples(now))
  }

  function After(s: Store, op: Op): Store {
    match op
    case Save(tx, writing) => Written(s.(memory := Saved(s.memory, tx)), writing)
    case Remove(id, writing) =>
      if Found(s.memory, id).Some? then Written(s.(memory := Removed(s.memory, id)), writing) else s
    case Clear(writing) => Written(s.(memory := []), writing)
    case Reload(opening, now, left) => Reloaded(s, opening, now, left)
    case Reopen(closing, opening, now, left) => Reloaded(Store([], Written(s, closing).disk), opening, now, left)
  }

  function Run(s: Store, ops: seq<Op>): Store
    decreases ops
  {
    if ops == [] then s else Run(After(s, ops[0]), ops[1..])
  }

  // ----- ids stay distinct

  /** The file, if there is one, holds the beginning of what some list with distinct ids was written as. */
  ghost predicate WrittenDistinct(disk: Option<Bytes>) {
    disk.Some? ==> exists l :: DistinctIds(l) && disk.value <= Serialized(l)
  }

  ghost predicate Sound(s: Store) {
    DistinctIds(s.memory) && WrittenDistinct(s.disk)
  }

  lemma WrittenSound(s: Store, writing: Fate)
    requires Sound(s)
    ensures Sound(Written(s, writing))
  {
    hide DistinctIds, Serialized;
  }

  /** The file ends inside the id of the list's last record, and what is left of it was there before. */
  predicate RepeatsCutId(b: Bytes, txs: seq<Transaction>) {
    EndsInId(b, txs) && exists i :: 0 <= i < |txs| - 1 && txs[i].id == txs[|txs| - 1].id
  }

  lemma LastIdHeld(b: Bytes, left: Leftovers, txs: seq<Transaction>, written: seq<Transaction>)
    requires |b| >= 8 && txs != [] && Resembles(b[8..], left, txs, written) && !EndsInId(b, txs)
    ensures txs[|txs| - 1].id == written[|txs| - 1].id
  {
    hide Record, Records, FillsUp;
    var k := |txs| - 1;
    var held := b[8..][|Records(written[..k])|..];
    if held < Record(written[k]) {
      IdHeld(held, left, txs[k], written[k]);
    }
  }

  /** A load from the beginning of a written file repeats an id exactly when it repeats a cut one. */
  lemma LoadedDistinct(b: Bytes, left: Leftovers, written: seq<Transaction>)
    requires b <= Serialized(written) && DistinctIds(written)
    ensures DistinctIds(Loaded(b, left)) <==> !RepeatsCutId(b, Loaded(b, left))
  {
    hide Loaded, Serialized;
    var txs := Loaded(b, left);
    CutFileLoads(b, left, written);
    if txs != [] {
      var k := |txs| - 1;
      assert txs[..k] == written[..k] by {
        hide Records, FillsUp, Record;
      }
      assert forall i :: 0 <= i < k ==> txs[i] == txs[..k][i] == written[i];
      if !EndsInId(b, txs) {
        LastIdHeld(b, left, txs, written);
      }
      hide Resembles, EndsInId;
    }
  }

  lemma PassedDistinct(disk: Option<Bytes>, opening: Fate, left: Leftovers)
    requires WrittenDistinct(disk) && disk.Some?
    ensures var b := opening.Passed(disk.value);
            DistinctIds(Loaded(b, left)) <==> !RepeatsCutId(b, Loaded(b, left))
  {
    hide DistinctIds, Serialized, Loaded, RepeatsCutId;
    var written :| DistinctIds(written) && disk.value <= Serialized(written);
    LoadedDistinct(opening.Passed(disk.value), left, written);
  }

  predicate SamplesUnused(txs: seq<Transaction>, now: Clock) {
    forall tx :: tx in Samples(now) ==> Found(txs, tx.id).None?
  }

  /** A load that finds a file repeats no cut id; one that finds none meets no sample id. */
  predicate LoadsClean(s: Store, opening: Fate, now: Clock, left: Leftovers) {
    if Opens(s.disk, opening) then
      var b := opening.Passed(s.disk.value);
      !RepeatsCutId(b, Loaded(b, left))
    else SamplesUnused(s.memory, now)
  }

  predicate NoClash(s: Store, op: Op) {
    match op
    case Reload(opening, now, left) => LoadsClean(s, opening, now, left)
    case Reopen(closing, opening, now, left) => LoadsClean(Store([], Written(s, closing).disk), opening, now, left)
    case _ => true
  }

  lemma ReloadedSound(s: Store, opening: Fate, now: Clock, left: Leftovers)
    requires Sound(s)
    ensures var t := Reloaded(s, opening, now, left);
            DistinctIds(t.memory) == Sound(t) == LoadsClean(s, opening, now, left)
  {
    hide DistinctIds, WrittenDistinct, Samples, Found, Loaded, RepeatsCutId;
    if Opens(s.disk, opening) {
      PassedDistinct(s.disk, opening, left);
    } else {
      ReloadKeepsDistinct(s.memory, now);
    }
  }

  /** One operation keeps ids distinct, in memory and behind the file, exactly when its load is clean. */
  lemma StepSound(s: Store, op: Op)
    requires Sound(s)
    ensures DistinctIds(After(s, op).memory) == Sound(After(s, op)) == NoClash(s, op)
  {
    hide DistinctIds, WrittenDistinct, Saved, Removed, Found, Reloaded, Written, LoadsClean;
    match op
    case Save(tx, writing) => SavedRefines(s.memory, tx); WrittenSound(s.(memory := Saved(s.memory, tx)), writing);
    case Remove(id, writing) =>
      RemovedRefines(s.memory, id);
      WrittenSound(s.(memory := Removed(s.memory, id)), writing);
    case Clear(writing) => EmptyLedger(); WrittenSound(s.(memory := []), writing);
    case Reload(opening, now, left) => ReloadedSound(s, opening, now, left);
    case Reopen(closing, opening, now, left) =>
      WrittenSound(s, closing);
      EmptyLedger();
      ReloadedSound(Store([], Written(s, closing).disk), opening, now, left);
  }

  lemma EmptyLedger()
    ensures DistinctIds([]) && Abstract([]) == Ledger([], map[])
  {
  }

  lemma RunCons(s: Store, op: Op, ops: seq<Op>)
    ensures Run(s, [op] + ops) == Run(After(s, op), ops)
  {
    assert ([op] + ops)[1..] == ops;
  }

  /** Every load of the run is clean. */
  predicate NoClashes(s: Store, ops: seq<Op>)
    decreases ops
  {
    ops != [] ==> NoClash(s, ops[0]) && NoClashes(After(s, ops[0]), ops[1..])
  }

  /** The ids in memory are distinct all through the run. */
  predicate StaysDistinct(s: Store, ops: seq<Op>)
    decreases ops
  {
    DistinctIds(s.memory) && (ops != [] ==> StaysDistinct(After(s, ops[0]), ops[1..]))
  }

  /**
   In every run of save, remove, clear, load and close and reopen, whichever of the file operations
   fail or stop half way and whatever uninitialised variables hold, ids stay distinct exactly when no
   load without a file meets a sample id and no load ends inside an id that it thereby repeats.
   */
  lemma {:induction false} DistinctExactly(s: Store, ops: seq<Op>)
    requires Sound(s)
    ensures StaysDistinct(s, ops) <==> NoClashes(s, ops)
    decreases ops
  {
    hide DistinctIds, WrittenDistinct, After, NoClash;
    if ops != [] {
      StepSound(s, ops[0]);
      if NoClash(s, ops[0]) {
        DistinctExactly(After(s, ops[0]), ops[1..]);
      } else if |ops| > 1 {
        assert !StaysDistinct(After(s, ops[0]), ops[1..]);
      }
    }
  }

  /**
   The concrete failure: ids 'a' with a zero byte, and "ab"; the second save gets as far as the 'a'
   of its id, and the object is reopened.
   */
  lemma CutIdRepeats(t: Transaction, u: Transaction, now: Clock, left: Leftovers)
    requires t.id == [97, 0] && u.id == [97, 98]
    ensures var writing := CutOff(|Serialized([t])| + 9);
            var s := Run(Store([t], None), [Save(u, writing), Reopen(Unopened, Complete, now, left)]);
            |s.memory| == 2 && s.memory[0].id == s.memory[1].id == [97, 0]
  {
    var n := |Serialized([t])| + 9;
    assert CutId(u.id, 1, left).id == [97, 0];
    hide Serialized, Loaded, Record, CutId, Saved, Run, After;
    CutBehindFirst(t, u, left);
    SavedBehind(t, u);
    var s0, op, reopen := Store([t], None), Save(u, CutOff(n)), Reopen(Unopened, Complete, now, left);
    RunTwo(s0, op, reopen);
    CutSave(s0, u, n);
    ReopenUnwritten(After(s0, op), now, left);
  }

  lemma RunTwo(s: Store, op: Op, next: Op)
    ensures Run(s, [op, next]) == After(After(s, op), next)
  {
    hide After;
    RunCons(s, op, [next]);
    RunCons(After(s, op), next, []);
    assert [op] + [next] == [op, next] && [next] + [] == [next];
  }

  lemma CutSave(s: Store, tx: Transaction, n: nat)
    requires n <= |Serialized(Saved(s.memory, tx))|
    ensures After(s, Save(tx, CutOff(n))).disk == Some(Serialized(Saved(s.memory, tx))[..n])
  {
    hide Serialized, Saved;
    var file := Serialized(Saved(s.memory, tx));
    assert file[..|file|] == file;
  }

  lemma ReopenUnwritten(s: Store, now: Clock, left: Leftovers)
    requires s.disk.Some?
    ensures After(s, Reopen(Unopened, Complete, now, left)).memory == Loaded(s.disk.value, left)
  {
    hide Loaded;
  }

  lemma SavedBehind(t: Transaction, u: Transaction)
    requires t.id != u.id
    ensures Saved([t], u) == [t, u]
  {
    IndexIsEnd([t], u.id);
  }

  lemma CutBehindFirst(t: Transaction, u: Transaction, left: Leftovers)
    requires |u.id| == 2
    ensures |Serialized([t])| + 9 < |Serialized([t, u])|
    ensures Loaded(Serialized([t, u])[..|Serialized([t])| + 9], left) == [t, CutId(u.id, 1, left)]
  {
    hide Loaded, Record, Records, CutId;
    assert [t, u] == [t] + [u] && [t, CutId(u.id, 1, left)] == [t] + [CutId(u.id, 1, left)];
    LastRecord([t], u);
    CutIdLoads([t], u, 1, left);
  }

  // ----- the same machine on ledgers

  datatype LedgerStore = LedgerStore(memory: Ledger, disk: Option<Bytes>)

  function LedgerWritten(s: LedgerStore, writing: Fate): LedgerStore {
    if writing.Unopened? then s
    else s.(disk := Some(writing.Passed(Serialized(Listing(s.memory.order, s.memory.entries)))))
  }

  function LedgerReloaded(s: LedgerStore, opening: Fate, now: Clock, left: Leftovers): LedgerStore {
    s.(memory :=
      if Opens(s.disk, opening) then PutAll(Ledger([], map[]), Loaded(opening.Passed(s.disk.value), left))
      else PutAll(s.memory, Samples(now)))
  }

  function LedgerAfter(s: LedgerStore, op: Op): LedgerStore {
    match op
    case Save(tx, writing) => LedgerWritten(s.(memory := Put(s.memory, tx)), writing)
    case Remove(id, writing) =>
      if id in s.memory.entries then LedgerWritten(s.(memory := Drop(s.memory, id)), writing) else s
    case Clear(writing) => LedgerWritten(s.(memory := Ledger([], map[])), writing)
    case Reload(opening, now, left) => LedgerReloaded(s, opening, now, left)
    case Reopen(closing, opening, now, left) =>
      LedgerReloaded(LedgerStore(Ledger([], map[]), LedgerWritten(s, closing).disk), opening, now, left)
  }

  function LedgerRun(s: LedgerStore, ops: seq<Op>): LedgerStore
    decreases ops
  {
    if ops == [] then s else LedgerRun(LedgerAfter(s, ops[0]), ops[1..])
  }

  function AbstractStore(s: Store): LedgerStore {
    LedgerStore(Abstract(s.memory), s.disk)
  }

  lemma WrittenRefines(s: Store, writing: Fate)
    requires DistinctIds(s.memory)
    ensures AbstractStore(Written(s, writing)) == LedgerWritten(AbstractStore(s), writing)
  {
    hide DistinctIds, Serialized, Listing, Ids, Entries;
    ListingOfAbstract(s.memory);
  }

  lemma ReloadedRefines(s: Store, opening: Fate, now: Clock, left: Leftovers)
    requires Sound(s) && LoadsClean(s, opening, now, left)
    ensures AbstractStore(Reloaded(s, opening, now, left)) == LedgerReloaded(AbstractStore(s), opening, now, left)
  {
    hide DistinctIds, WrittenDistinct, LoadsClean, Samples, Loaded, PutAll, Abstract;
    var memory := Reloaded(s, opening, now, left).memory;
    ReloadedSound(s, opening, now, left);
    if Opens(s.disk, opening) {
      assert [] + memory == memory;
      EmptyLedger();
      AppendRefines([], memory);
    } else {
      AppendRefines(s.memory, Samples(now));
    }
  }

  lemma StepRefines(s: Store, op: Op)
    requires Sound(s) && NoClash(s, op)
    ensures AbstractStore(After(s, op)) == LedgerAfter(AbstractStore(s), op)
  {
    hide DistinctIds, WrittenDistinct, Saved, Removed, Reloaded, LedgerReloaded, Written, LedgerWritten, Put, Drop,
      Entries, Ids, LoadsClean;
    match op
    case Save(tx, writing) =>
      SavedRefines(s.memory, tx);
      WrittenRefines(s.(memory := Saved(s.memory, tx)), writing);
    case Remove(id, writing) =>
      RemovedRefines(s.memory, id);
      FoundIsLookup(s.memory, id);
      WrittenRefines(s.(memory := Removed(s.memory, id)), writing);
    case Clear(writing) =>
      EmptyLedger();
      WrittenRefines(s.(memory := []), writing);
    case Reload(opening, now, left) => ReloadedRefines(s, opening, now, left);
    case Reopen(closing, opening, now, left) =>
      EmptyLedger();
      WrittenSound(s, closing);
      WrittenRefines(s, closing);
      ReloadedRefines(Store([], Written(s, closing).disk), opening, now, left);
  }

  /**
   Every such run whose ids stay distinct agrees, in memory and in the bytes of the file, with a plain
   map that remembers the order of insertion.
   */
  lemma {:induction false} RunRefines(s: Store, ops: seq<Op>)
    requires Sound(s) && StaysDistinct(s, ops)
    ensures AbstractStore(Run(s, ops)) == LedgerRun(AbstractStore(s), ops)
    ensures Sound(Run(s, ops))
    decreases ops
  {
    hide DistinctIds, WrittenDistinct, AbstractStore, After, LedgerAfter, NoClash;
    if ops != [] {
      DistinctExactly(s, ops);
      StepRefines(s, ops[0]);
      StepSound(s, ops[0]);
      RunRefines(After(s, ops[0]), ops[1..]);
    }
  }

  // ----- runs whose file operations all succeed

  predicate Faultless(op: Op) {
    match op
    case Save(_, writing) => writing.Complete?
    case Remove(_, writing) => writing.Complete?
    case Clear(writing) => writing.Complete?
    case Reload(opening, _, _) => opening.Complete?
    case Reopen(closing, opening, _, _) => closing.Complete? && opening.Complete?
  }

  predicate Synced(s: Store) { s.disk == Some(Serialized(s.memory)) }

  predicate Interrupts(op: Op) { op.Reload? || op.Reopen? }

  function Uninterrupted(ops: seq<Op>): seq<Op> {
    if ops == [] then []
    else (if Interrupts(ops[0]) then [] else [ops[0]]) + Uninterrupted(ops[1..])
  }

  lemma {:induction false} MemoryIgnoresDisk(s: Store, t: Store, ops: seq<Op>)
    requires s.memory == t.memory
    requires forall i :: 0 <= i < |ops| ==> !Interrupts(ops[i])
    ensures Run(s, ops).memory == Run(t, ops).memory
    decreases ops
  {
    hide Saved, Removed, Found, Serialized;
    if ops != [] {
      assert !Interrupts(ops[0]);
      MemoryIgnoresDisk(After(s, ops[0]), After(t, ops[0]), ops[1..]);
    }
  }

  lemma {:induction false} UninterruptedRuns(ops: seq<Op>)
    ensures forall i :: 0 <= i < |Uninterrupted(ops)| ==> !Interrupts(Uninterrupted(ops)[i])
  {
    if ops != [] {
      UninterruptedRuns(ops[1..]);
    }
  }

  /** Does the operation write the file? Removing an unknown id does not. */
  predicate Writes(s: Store, op: Op) {
    op.Save? || op.Clear? || op.Reopen? || (op.Remove? && Found(s.memory, op.id).Some?)
  }

  /** Before the first load from outside the file already holds the list, or something is written. */
  predicate WritesFirst(s: Store, ops: seq<Op>)
    decreases ops
  {
    ops == [] || Synced(s) || Writes(s, ops[0]) || (ops[0].Remove? && WritesFirst(s, ops[1..]))
  }

  /** One operation without a fault: file and list agree afterwards, or nothing happened. */
  lemma FaultlessStep(s: Store, op: Op)
    requires Faultless(op) && (op.Reload? ==> Synced(s)) && |s.memory| < TWO64
    ensures var t := After(s, op);
            && |t.memory| <= |s.memory| + 1 && (if Writes(s, op) then Synced(t) else t == s)
            && (Interrupts(op) ==> t.memory == s.memory)
  {
    hide Serialized, Loaded, Samples;
    if op.Reload? || op.Reopen? {
      FileRoundTrip(s.memory, [], op.left);
      assert Serialized(s.memory) + [] == Serialized(s.memory);
    }
  }

  /**
   While no file operation fails, closing and reopening anywhere in a run, and loading once the file
   is written, cannot be noticed.
   */
  lemma {:induction false} ReopeningIsInvisible(s: Store, ops: seq<Op>)
    requires forall i :: 0 <= i < |ops| ==> Faultless(ops[i])
    requires WritesFirst(s, ops)
    requires |s.memory| + |ops| < TWO64
    ensures Run(s, ops).memory == Run(s, Uninterrupted(ops)).memory
    decreases ops
  {
    hide After, Synced, Writes;
    if ops != [] {
      var op, others := ops[0], ops[1..];
      assert forall i :: 0 <= i < |others| ==> others[i] == ops[i + 1];
      assert Faultless(op);
      ReloadNeedsSync(s, op);
      FaultlessStep(s, op);
      var t := After(s, op);
      assert WritesFirst(t, others);
      ReopeningIsInvisible(t, others);
      if Interrupts(op) {
        UninterruptedRuns(others);
        MemoryIgnoresDisk(t, s, Uninterrupted(others));
        assert [] + Uninterrupted(others) == Uninterrupted(others);
      } else {
        RunCons(s, op, Uninterrupted(others));
      }
    }
  }

  lemma ReloadNeedsSync(s: Store, op: Op)
    ensures op.Reload? ==> !Writes(s, op)
  {
  }

  // ----- the objects

  class Disk {
    var content: Option<Bytes>  // None while the file does not exist

    constructor ()
      ensures content == None
    {
      content := None;
    }
  }

  class TransactionRepository {
    const disk: Disk
    var transactions: seq<Transaction>

    ghost function View(): Store
      reads this, disk
    {
      Store(transactions, disk.content)
    }

    constructor (disk: Disk, opening: Fate, now: Clock, left: Leftovers)
      ensures this.disk == disk
      ensures View() == Reloaded(Store([], disk.content), opening, now, left)
    {
      this.disk := disk;
      transactions := [];
      new;
      var ok := LoadFromFile(opening, now, left);
    }

    /** A file that cannot be opened leaves the list as it is and adds the samples. */
    method LoadFromFile(opening: Fate, now: Clock, left: Leftovers) returns (ok: bool)
      modifies this
      ensures ok == Opens(disk.content, opening)
      ensures View() == Reloaded(old(View()), opening, now, left)
    {
      hide Loaded;
      if opening.Unopened? || disk.content.None? {
        transactions := transactions + Samples(now);
        return false;
      }
      transactions := Load(opening.Passed(disk.content.value), left);
      return true;
    }

    /** The writes are not checked: true means that the file was opened, not that all bytes are in it. */
    method SaveToFile(writing: Fate) returns (ok: bool)
      modifies disk
      ensures ok == !writing.Unopened? && View() == Written(old(View()), writing)
      ensures ok ==> (disk.content == Some(Serialized(transactions)) <==> writing.AllPass(Serialized(transactions)))
    {
      hide Serialized;
      if writing.Unopened? {
        return false;
      }
      var bytes := TransactionFile.Save(transactions);
      SerializedNonempty(transactions);
      disk.content := Some(writing.Passed(bytes));
      return true;
    }

    method Save(tx: Transaction, writing: Fate) returns (ok: bool)
      modifies this, disk
      ensures ok == !writing.Unopened? && View() == After(old(View()), Op.Save(tx, writing))
      ensures ok ==> (disk.content == Some(Serialized(transactions)) <==> writing.AllPass(Serialized(transactions)))
    {
      hide Serialized;
      var i := IndexOf(transactions, tx.id);
      if i < |transactions| {
        transactions := transactions[i := tx];
      } else {
        transactions := transactions + [tx];
      }
      ok := SaveToFile(writing);
    }

    method FindById(id: Bytes) returns (tx: Option<Transaction>)
      ensures tx == Found(transactions, id)
    {
      var i := IndexOf(transactions, id);
      tx := if i < |transactions| then Some(transactions[i]) else None;
    }

    method Remove(id: Bytes, writing: Fate) returns (ok: bool)
      modifies this, disk
      ensures ok == (!writing.Unopened? && Found(old(transactions), id).Some?)
      ensures View() == After(old(View()), Op.Remove(id, writing))
      ensures ok ==> (disk.content == Some(Serialized(transactions)) <==> writing.AllPass(Serialized(transactions)))
    {
      hide Serialized;
      var i := IndexOf(transactions, id);
      if i < |transactions| {
        transactions := transactions[..i] + transactions[i + 1..];
        ok := SaveToFile(writing);
      } else {
        ok := false;
      }
    }

    method Clear(writing: Fate) returns (ok: bool)
      modifies this, disk
      ensures ok == !writing.Unopened? && View() == After(old(View()), Op.Clear(writing))
      ensures ok ==> (disk.content == Some(Serialized(transactions)) <==> writing.AllPass(Serialized(transactions)))
    {
      hide Serialized;
      transactions := [];
      ok := SaveToFile(writing);
    }

    /** The destructor; the object must not be used afterwards. */
    method Close(writing: Fate)
      modifies disk
      ensures View() == Written(old(View()), writing)
    {
      var ok := SaveToFile(writing);
    }
  }

  lemma SerializedNonempty(txs: seq<Transaction>)
    ensures Serialized(txs) != []
  {
  }

  /** Destroying an object and making a new one on the same file. */
  method ReopenRepository(r: TransactionRepository, closing: Fate, opening: Fate, now: Clock, left: Leftovers)
    returns (n: TransactionRepository)
    modifies r.disk
    ensures fresh(n) && n.disk == r.disk
    ensures n.View() == After(old(r.View()), Reopen(closing, opening, now, left))
  {
    hide Reloaded, Written;
    r.Close(closing);
    n := new TransactionRepository(r.disk, opening, now, left);
  }

  /** The operations carried out on an object, and on its successors on the same file. */
  method Replay(r: TransactionRepository, ops: seq<Op>) returns (n: TransactionRepository)
    modifies r, r.disk
    ensures n.disk == r.disk && (n == r || fresh(n))
    ensures n.View() == Run(old(r.View()), ops)
  {
    hide After;
    n := r;
    assert ops[0..] == ops;
    for i := 0 to |ops|
      invariant n.disk == r.disk && (n == r || fresh(n))
      invariant Run(n.View(), ops[i..]) == Run(old(r.View()), ops)
    {
      assert ops[i..][1..] == ops[i + 1..];
      n := Perform(n, ops[i]);
    }
  }

  method Perform(r: TransactionRepository, op: Op) returns (n: TransactionRepository)
    modifies r, r.disk
    ensures n.disk == r.disk && (n == r || fresh(n))
    ensures n.View() == After(old(r.View()), op)
  {
    n := r;
    var ok: bool;
    match op
    case Save(tx, writing) => ok := r.Save(tx, writing);
    case Remove(id, writing) => ok := r.Remove(id, writing);
    case Clear(writing) => ok := r.Clear(writing);
    case Reload(opening, now, left) => ok := r.LoadFromFile(opening, now, left);
    case Reopen(closing, opening, now, left) => n := ReopenRepository(r, closing, opening, now, left);
  }
}
