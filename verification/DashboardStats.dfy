/** The aggregates of src/backend/DashboardStats.cpp over the repository's list. */
module DashboardStats {
  import opened Options
  import opened Octets
  import opened Machine
  import opened TransactionBytes
  import TransactionRepository
  import opened Tally

  const SUCCESS: Int32 := 0
  const REFUNDED: Int32 := 8

  /** paymentStatusToString, on the raw value of the enumeration. */
  function StatusName(status: Int32): string {
    match status
    case 0 => "Success"
    case 1 => "Insufficient Funds"
    case 2 => "Invalid Card"
    case 3 => "Expired Card"
    case 4 => "Invalid CVV"
    case 5 => "Invalid Amount"
    case 6 => "Network Error"
    case 7 => "Hardware Error"
    case 8 => "Refunded"
    case 9 => "Refund Failed"
    case 10 => "Unknown Error"
    case _ => "Unknown"
  }

  // ----- what each query adds up: one entry for each transaction that counts

  /** The three counters of getStats. */
  datatype Outcome = Successful | Refunded | Failed

  function OutcomeOf(tx: Transaction): Outcome {
    if tx.status == SUCCESS then Successful else if tx.status == REFUNDED then Refunded else Failed
  }

  function Select<K>(txs: seq<Transaction>, entry: Transaction -> Option<Entry<K>>): seq<Entry<K>> {
    if txs == [] then []
    else
      var last := entry(txs[|txs| - 1]);
      Select(txs[..|txs| - 1], entry) + if last.Some? then [last.value] else []
  }

  function VolumeEntry(tx: Transaction): Option<Entry<()>> { Some(Entry((), tx.cents)) }

  function OutcomeEntry(tx: Transaction): Option<Entry<Outcome>> { Some(Entry(OutcomeOf(tx), 1)) }

  function MethodEntry(tx: Transaction): Option<Entry<Bytes>> { Some(Entry(tx.paymentMethod, 1)) }

  function StatusEntry(tx: Transaction): Option<Entry<string>> { Some(Entry(StatusName(tx.status), 1)) }

  /** `day` is the local date of a time stamp. */
  function RevenueEntry(day: Int64 -> string): Transaction -> Option<Entry<string>> {
    (tx: Transaction) => if tx.status == SUCCESS then Some(Entry(day(tx.timestamp), tx.cents)) else None
  }

  // ----- the queries

  datatype Stats = Stats(
    total: nat, volume: int, successful: int, failed: int, refunded: int, byMethod: map<Bytes, int>)

  method GetStats(txs: seq<Transaction>) returns (s: Stats)
    ensures s.total == |txs|
    ensures s.volume == Sum(Select(txs, VolumeEntry))
    ensures s.successful == SumFor(Select(txs, OutcomeEntry), Successful)
    ensures s.failed == SumFor(Select(txs, OutcomeEntry), Failed)
    ensures s.refunded == SumFor(Select(txs, OutcomeEntry), Refunded)
    ensures s.byMethod == Accumulated(Select(txs, MethodEntry))
  {
    hide Select, Sum, SumFor, Accumulated;
    NothingYet(VolumeEntry, ());
    NothingYet(OutcomeEntry, Successful);
    NothingYet(OutcomeEntry, Failed);
    NothingYet(OutcomeEntry, Refunded);
    NothingYet(MethodEntry, []);
    assert txs[..0] == [];
    var totalVolume, successCount, failedCount, refundedCount := 0, 0, 0, 0;
    var methodCount: map<Bytes, int> := map[];
    for i := 0 to |txs|
      invariant totalVolume == Sum(Select(txs[..i], VolumeEntry))
      invariant successCount == SumFor(Select(txs[..i], OutcomeEntry), Successful)
      invariant failedCount == SumFor(Select(txs[..i], OutcomeEntry), Failed)
      invariant refundedCount == SumFor(Select(txs[..i], OutcomeEntry), Refunded)
      invariant methodCount == Accumulated(Select(txs[..i], MethodEntry))
    {
      var tx := txs[i];
      OneMoreCounted(txs, i, VolumeEntry, ());
      OneMoreCounted(txs, i, OutcomeEntry, Successful);
      OneMoreCounted(txs, i, OutcomeEntry, Failed);
      OneMoreCounted(txs, i, OutcomeEntry, Refunded);
      OneMoreCounted(txs, i, MethodEntry, []);
      totalVolume := totalVolume + tx.cents;
      if tx.status == SUCCESS {
        successCount := successCount + 1;
      } else if tx.status == REFUNDED {
        refundedCount := refundedCount + 1;
      } else {
        failedCount := failedCount + 1;
      }
      var name := tx.paymentMethod;
      methodCount := methodCount[name := (if name in methodCount then methodCount[name] else 0) + 1];
    }
    assert txs[..|txs|] == txs;
    s := Stats(|txs|, totalVolume, successCount, failedCount, refundedCount, methodCount);
  }

  lemma OneMore<K>(txs: seq<Transaction>, i: nat, entry: Transaction -> Option<Entry<K>>)
    requires i < |txs|
    ensures var s, e := Select(txs[..i], entry), entry(txs[i]);
            Select(txs[..i + 1], entry) == if e.Some? then s + [e.value] else s
    ensures var s, e := Select(txs[..i], entry), entry(txs[i]);
            e.Some? ==> (s + [e.value])[..|s + [e.value]| - 1] == s
  {
    assert txs[..i + 1][..i] == txs[..i];
  }

  /** One turn of a loop over the list, as the sums and the map see it. */
  lemma OneMoreCounted<K>(txs: seq<Transaction>, i: nat, entry: Transaction -> Option<Entry<K>>, key: K)
    requires i < |txs| && entry(txs[i]).Some?
    ensures var s, t, e := Select(txs[..i], entry), Select(txs[..i + 1], entry), entry(txs[i]).value;
            && Sum(t) == Sum(s) + e.weight
            && SumFor(t, key) == SumFor(s, key) + (if e.key == key then e.weight else 0)
            && Accumulated(t) == Add(Accumulated(s), e)
  {
    OneMore(txs, i, entry);
  }

  lemma NothingYet<K>(entry: Transaction -> Option<Entry<K>>, key: K)
    ensures var s := Select([], entry);
            Sum(s) == 0 && SumFor(s, key) == 0 && Accumulated(s) == map[]
  {
  }

  lemma RevenueStep(txs: seq<Transaction>, i: nat, day: Int64 -> string)
    requires i < |txs|
    ensures var before := Accumulated(Select(txs[..i], RevenueEntry(day)));
            Accumulated(Select(txs[..i + 1], RevenueEntry(day))) ==
            if txs[i].status != SUCCESS then before else Add(before, Entry(day(txs[i].timestamp), txs[i].cents))
  {
    if txs[i].status == SUCCESS {
      OneMoreCounted(txs, i, RevenueEntry(day), "");
    } else {
      OneMore(txs, i, RevenueEntry(day));
    }
    hide Select, Accumulated;
  }

  method GetRevenueByDay(txs: seq<Transaction>, day: Int64 -> string) returns (revenue: map<string, int>)
    ensures revenue == Accumulated(Select(txs, RevenueEntry(day)))
  {
    hide Select, Accumulated, RevenueEntry;
    NothingYet(RevenueEntry(day), "");
    assert txs[..0] == [];
    revenue := map[];
    for i := 0 to |txs|
      invariant revenue == Accumulated(Select(txs[..i], RevenueEntry(day)))
    {
      RevenueStep(txs, i, day);
      if txs[i].status != SUCCESS {
        continue;
      }
      var date := day(txs[i].timestamp);
      revenue := revenue[date := (if date in revenue then revenue[date] else 0) + txs[i].cents];
    }
    assert txs[..|txs|] == txs;
  }

  method GetTransactionsByStatus(txs: seq<Transaction>) returns (counts: map<string, int>)
    ensures counts == Accumulated(Select(txs, StatusEntry))
  {
    hide Select, Accumulated, StatusName;
    NothingYet(StatusEntry, "");
    assert txs[..0] == [];
    counts := map[];
    for i := 0 to |txs|
      invariant counts == Accumulated(Select(txs[..i], StatusEntry))
    {
      OneMoreCounted(txs, i, StatusEntry, "");
      var name := StatusName(txs[i].status);
      counts := counts[name := (if name in counts then counts[name] else 0) + 1];
    }
    assert txs[..|txs|] == txs;
  }

  // ----- what the numbers are, transaction by transaction

  function TotalOf(txs: seq<Transaction>, share: Transaction -> int): int {
    if txs == [] then 0 else share(txs[0]) + TotalOf(txs[1..], share)
  }

  lemma {:induction false} TotalOfLast(txs: seq<Transaction>, tx: Transaction, share: Transaction -> int)
    ensures TotalOf(txs + [tx], share) == TotalOf(txs, share) + share(tx)
  {
    if txs == [] {
      assert [] + [tx] == [tx] && [tx][1..] == [];
    } else {
      assert (txs + [tx])[1..] == txs[1..] + [tx];
      TotalOfLast(txs[1..], tx, share);
    }
  }

  /** The part of one transaction in what a query keeps under a key. */
  function PartOf<K(==)>(entry: Transaction -> Option<Entry<K>>, key: K, tx: Transaction): int {
    if entry(tx).Some? && entry(tx).value.key == key then entry(tx).value.weight else 0
  }

  ghost predicate Parts<K(!new)>(entry: Transaction -> Option<Entry<K>>, key: K, share: Transaction -> int) {
    forall tx :: share(tx) == PartOf(entry, key, tx)
  }

  lemma PartAdded<K(!new)>(txs: seq<Transaction>, n: nat, entry: Transaction -> Option<Entry<K>>, key: K)
    requires n < |txs|
    ensures SumFor(Select(txs[..n + 1], entry), key) == SumFor(Select(txs[..n], entry), key) + PartOf(entry, key, txs[n])
  {
    OneMore(txs, n, entry);
    hide Select;
  }

  lemma {:induction false} SumForIsTotal<K(!new)>(txs: seq<Transaction>, entry: Transaction -> Option<Entry<K>>,
          key: K, share: Transaction -> int)
    requires Parts(entry, key, share)
    ensures SumFor(Select(txs, entry), key) == TotalOf(txs, share)
  {
    if txs != [] {
      var n := |txs| - 1;
      SumForIsTotal(txs[..n], entry, key, share);
      PartAdded(txs, n, entry, key);
      TotalOfLast(txs[..n], txs[n], share);
      assert share(txs[n]) == PartOf(entry, key, txs[n]);
      hide *;
      assert txs[..n + 1] == txs && txs == txs[..n] + [txs[n]];
    }
  }

  lemma {:induction false} SumIsTotal(txs: seq<Transaction>, share: Transaction -> int)
    requires forall tx :: share(tx) == tx.cents
    ensures Sum(Select(txs, VolumeEntry)) == TotalOf(txs, share)
  {
    if txs != [] {
      var n := |txs| - 1;
      SumIsTotal(txs[..n], share);
      OneMore(txs, n, VolumeEntry);
      assert txs[..n + 1] == txs && txs == txs[..n] + [txs[n]];
      TotalOfLast(txs[..n], txs[n], share);
    }
  }

  /** The counters of getStats: status 0 is a success, 8 a refund, anything else a failure; all amounts are volume. */
  lemma StatsMeaning(txs: seq<Transaction>)
    ensures Sum(Select(txs, VolumeEntry)) == TotalOf(txs, (tx: Transaction) => tx.cents)
    ensures SumFor(Select(txs, OutcomeEntry), Successful) ==
            TotalOf(txs, (tx: Transaction) => if tx.status == 0 then 1 else 0)
    ensures SumFor(Select(txs, OutcomeEntry), Refunded) ==
            TotalOf(txs, (tx: Transaction) => if tx.status == 8 then 1 else 0)
    ensures SumFor(Select(txs, OutcomeEntry), Failed) ==
            TotalOf(txs, (tx: Transaction) => if tx.status != 0 && tx.status != 8 then 1 else 0)
  {
    hide Select, Sum, SumFor, TotalOf;
    SumIsTotal(txs, (tx: Transaction) => tx.cents);
    SumForIsTotal(txs, OutcomeEntry, Successful, (tx: Transaction) => if tx.status == 0 then 1 else 0);
    SumForIsTotal(txs, OutcomeEntry, Refunded, (tx: Transaction) => if tx.status == 8 then 1 else 0);
    SumForIsTotal(txs, OutcomeEntry, Failed,
                  (tx: Transaction) => if tx.status != 0 && tx.status != 8 then 1 else 0);
  }

  /** What the maps hold for a method, a status name and a day. */
  lemma MapsMeaning(txs: seq<Transaction>, name: Bytes, status: string, day: Int64 -> string, date: string)
    ensures var m := Accumulated(Select(txs, MethodEntry));
            (if name in m then m[name] else 0) ==
            TotalOf(txs, (tx: Transaction) => if tx.paymentMethod == name then 1 else 0)
    ensures var m := Accumulated(Select(txs, StatusEntry));
            (if status in m then m[status] else 0) ==
            TotalOf(txs, (tx: Transaction) => if StatusName(tx.status) == status then 1 else 0)
    ensures var m := Accumulated(Select(txs, RevenueEntry(day)));
            (if date in m then m[date] else 0) ==
            TotalOf(txs, (tx: Transaction) => if tx.status == 0 && day(tx.timestamp) == date then tx.cents else 0)
  {
    hide Select, Accumulated, SumFor, Mentions, TotalOf, StatusName;
    AccumulatedMeaning(Select(txs, MethodEntry), name);
    AccumulatedMeaning(Select(txs, StatusEntry), status);
    AccumulatedMeaning(Select(txs, RevenueEntry(day)), date);
    SumForIsTotal(txs, MethodEntry, name, (tx: Transaction) => if tx.paymentMethod == name then 1 else 0);
    SumForIsTotal(txs, StatusEntry, status, (tx: Transaction) => if StatusName(tx.status) == status then 1 else 0);
    SumForIsTotal(txs, RevenueEntry(day), date,
      (tx: Transaction) => if tx.status == 0 && day(tx.timestamp) == date then tx.cents else 0);
  }

  const STATUS_NAMES: seq<string> := ["Success", "Insufficient Funds", "Invalid Card", "Expired Card", "Invalid CVV",
    "Invalid Amount", "Network Error", "Hardware Error", "Refunded", "Refund Failed", "Unknown Error", "Unknown"]

  /** The names in the order of the enumeration; what has no name is "Unknown", and no two names are equal. */
  lemma StatusNames(s: Int32, t: Int32)
    ensures StatusName(s) == STATUS_NAMES[if 0 <= s <= 10 then s else 11]
    ensures StatusName(s) == StatusName(t) <==> s == t || (!(0 <= s <= 10) && !(0 <= t <= 10))
  {
    assert |StatusName(0)| == 7 && |StatusName(1)| == 18 && |StatusName(2)| == 12 && |StatusName(3)| == 12;
    assert |StatusName(4)| == 11 && |StatusName(5)| == 14 && |StatusName(6)| == 13 && |StatusName(7)| == 14;
    assert |StatusName(8)| == 8 && |StatusName(9)| == 13 && |StatusName(10)| == 13;
    assert StatusName(2)[0] == 'I' && StatusName(3)[0] == 'E' && StatusName(5)[0] == 'I' && StatusName(7)[0] == 'H';
    assert StatusName(6)[0] == 'N' && StatusName(9)[0] == 'R' && StatusName(10)[0] == 'U';
  }

  // ----- nothing is lost

  lemma {:induction false} OutcomesCoverList(txs: seq<Transaction>)
    ensures var e := Select(txs, OutcomeEntry);
            SumFor(e, Successful) + SumFor(e, Failed) + SumFor(e, Refunded) == |txs|
  {
    if txs != [] {
      var n := |txs| - 1;
      OutcomesCoverList(txs[..n]);
      OneMore(txs, n, OutcomeEntry);
      assert txs[..n + 1] == txs;
    }
  }

  ghost predicate CountsEvery<K(!new)>(entry: Transaction -> Option<Entry<K>>) {
    forall tx: Transaction :: entry(tx).Some? && entry(tx).value.weight == 1
  }

  lemma {:induction false} CountsCoverList<K(!new)>(txs: seq<Transaction>, entry: Transaction -> Option<Entry<K>>)
    requires CountsEvery(entry)
    ensures Sum(Select(txs, entry)) == |txs|
  {
    if txs != [] {
      var n := |txs| - 1;
      CountsCoverList(txs[..n], entry);
      OneMore(txs, n, entry);
      assert txs[..n + 1] == txs;
    }
  }

  /** The counts per method and per status each add up to the length of the list. */
  lemma CountMapsCoverList(txs: seq<Transaction>)
    ensures Total(Accumulated(Select(txs, MethodEntry))) == |txs|
    ensures Total(Accumulated(Select(txs, StatusEntry))) == |txs|
  {
    CountsCoverList(txs, MethodEntry);
    CountsCoverList(txs, StatusEntry);
    TotalIsSum(Select(txs, MethodEntry));
    TotalIsSum(Select(txs, StatusEntry));
  }

  function SuccessVolume(txs: seq<Transaction>): int {
    if txs == [] then 0
    else SuccessVolume(txs[..|txs| - 1]) + if txs[|txs| - 1].status == SUCCESS then txs[|txs| - 1].cents else 0
  }

  /** Whatever the calendar, the revenues of the days add up to the amount of the successful transactions. */
  lemma {:induction false} RevenueCoversSuccess(txs: seq<Transaction>, day: Int64 -> string)
    ensures Total(Accumulated(Select(txs, RevenueEntry(day)))) == SuccessVolume(txs)
  {
    TotalIsSum(Select(txs, RevenueEntry(day)));
    if txs != [] {
      var n := |txs| - 1;
      RevenueCoversSuccess(txs[..n], day);
      TotalIsSum(Select(txs[..n], RevenueEntry(day)));
      OneMore(txs, n, RevenueEntry(day));
      assert txs[..n + 1] == txs;
    }
  }

  // ----- order does not matter

  lemma {:induction false} SelectConcat<K>(a: seq<Transaction>, b: seq<Transaction>,
          entry: Transaction -> Option<Entry<K>>)
    ensures Select(a + b, entry) == Select(a, entry) + Select(b, entry)
  {
    if b == [] {
      assert a + b == a;
    } else {
      assert (a + b)[..|a + b| - 1] == a + b[..|b| - 1];
      SelectConcat(a, b[..|b| - 1], entry);
    }
  }

  lemma {:induction false} SelectOfPermutation<K>(a: seq<Transaction>, b: seq<Transaction>,
                                                  entry: Transaction -> Option<Entry<K>>)
    requires multiset(a) == multiset(b)
    ensures multiset(Select(a, entry)) == multiset(Select(b, entry))
  {
    if a == [] {
      assert |b| == |multiset(b)| == 0;
    } else {
      var init, last := a[..|a| - 1], a[|a| - 1];
      var l, r := Unpermute(a, b);
      SelectOfPermutation(init, l + r, entry);
      assert a == init + [last];
      SelectConcat(init, [last], entry);
      SelectConcat(l + [last], r, entry);
      SelectConcat(l, [last], entry);
      SelectConcat(l, r, entry);
    }
  }

  /** Every query, whatever it selects, gives the same sums and the same map for every order of the list. */
  lemma QueriesIgnoreOrder<K(!new)>(a: seq<Transaction>, b: seq<Transaction>,
          entry: Transaction -> Option<Entry<K>>, key: K)
    requires multiset(a) == multiset(b)
    ensures Sum(Select(a, entry)) == Sum(Select(b, entry))
    ensures SumFor(Select(a, entry), key) == SumFor(Select(b, entry), key)
    ensures Accumulated(Select(a, entry)) == Accumulated(Select(b, entry))
  {
    SelectOfPermutation(a, b, entry);
    SumsOfPermutation(Select(a, entry), Select(b, entry), key);
    OrderIrrelevant(Select(a, entry), Select(b, entry));
  }

  // ----- the effect of one save

  /** What one transaction, if there is one, contributes to a query. */
  function Share<K>(tx: Option<Transaction>, entry: Transaction -> Option<Entry<K>>): seq<Entry<K>> {
    if tx.None? then [] else Select([tx.value], entry)
  }

  /** Saving changes every query by exactly the new transaction's share minus the replaced one's. */
  lemma SaveChangesByDifference<K>(txs: seq<Transaction>, tx: Transaction,
          entry: Transaction -> Option<Entry<K>>, key: K)
    ensures var s, replaced := TransactionRepository.Saved(txs, tx), TransactionRepository.Found(txs, tx.id);
            && Sum(Select(s, entry)) ==
               Sum(Select(txs, entry)) + Sum(Share(Some(tx), entry)) - Sum(Share(replaced, entry))
            && SumFor(Select(s, entry), key) ==
               SumFor(Select(txs, entry), key) + SumFor(Share(Some(tx), entry), key)
               - SumFor(Share(replaced, entry), key)
  {
    var i := TransactionRepository.IndexOf(txs, tx.id);
    if i < |txs| {
      SelectReplaced(txs, i, tx, entry, key);
    } else {
      SelectConcat(txs, [tx], entry);
      SumConcat(Select(txs, entry), Select([tx], entry), key);
    }
  }

  lemma SelectReplaced<K>(txs: seq<Transaction>, i: nat, tx: Transaction,
          entry: Transaction -> Option<Entry<K>>, key: K)
    requires i < |txs|
    ensures Sum(Select(txs[i := tx], entry)) ==
            Sum(Select(txs, entry)) + Sum(Select([tx], entry)) - Sum(Select([txs[i]], entry))
    ensures SumFor(Select(txs[i := tx], entry), key) ==
            SumFor(Select(txs, entry), key) + SumFor(Select([tx], entry), key) - SumFor(Select([txs[i]], entry), key)
  {
    SelectAround(txs, i, txs[i], entry, key);
    SelectAround(txs, i, tx, entry, key);
    assert txs[i := txs[i]] == txs;
  }

  lemma SelectAround<K>(txs: seq<Transaction>, i: nat, tx: Transaction,
          entry: Transaction -> Option<Entry<K>>, key: K)
    requires i < |txs|
    ensures Sum(Select(txs[i := tx], entry)) ==
            Sum(Select(txs[..i], entry)) + Sum(Select([tx], entry)) + Sum(Select(txs[i + 1..], entry))
    ensures SumFor(Select(txs[i := tx], entry), key) ==
            SumFor(Select(txs[..i], entry), key) + SumFor(Select([tx], entry), key) +
            SumFor(Select(txs[i + 1..], entry), key)
  {
    hide Select, Sum, SumFor;
    var a, b := txs[..i], txs[i + 1..];
    assert txs[i := tx] == a + [tx] + b;
    SelectConcat(a + [tx], b, entry);
    SelectConcat(a, [tx], entry);
    SumConcat(Select(a, entry) + Select([tx], entry), Select(b, entry), key);
    SumConcat(Select(a, entry), Select([tx], entry), key);
  }

  /** A save in place and a save behind the others hold the same transactions. */
  lemma SavedIsPermutation(txs: seq<Transaction>, tx: Transaction)
    ensures multiset(TransactionRepository.Saved(txs, tx)) == multiset(TransactionRepository.Removed(txs, tx.id) + [tx])
  {
    var i := TransactionRepository.IndexOf(txs, tx.id);
    if i < |txs| {
      var a, b := txs[..i], txs[i + 1..];
      assert txs[i := tx] == a + [tx] + b;
    }
  }

  /**
   The maps after a save, keys included: they are accumulated from the other transactions and the new
   one's share, so a key stays exactly when one of these mentions it, with the old value changed by
   the two shares.
   */
  lemma SaveChangesMap<K(!new)>(txs: seq<Transaction>, tx: Transaction,
          entry: Transaction -> Option<Entry<K>>, key: K)
    ensures var m := Accumulated(Select(TransactionRepository.Saved(txs, tx), entry));
            var others := Select(TransactionRepository.Removed(txs, tx.id), entry);
            var replaced := TransactionRepository.Found(txs, tx.id);
            && m == Accumulated(others + Share(Some(tx), entry))
            && (key in m <==> Mentions(others, key) || Mentions(Share(Some(tx), entry), key))
            && (key in m ==> m[key] == SumFor(Select(txs, entry), key) + SumFor(Share(Some(tx), entry), key)
                                       - SumFor(Share(replaced, entry), key))
  {
    hide Accumulated, Select, Mentions, SumFor;
    var s, r := TransactionRepository.Saved(txs, tx), TransactionRepository.Removed(txs, tx.id);
    SavedIsPermutation(txs, tx);
    QueriesIgnoreOrder(s, r + [tx], entry, key);
    SelectConcat(r, [tx], entry);
    AccumulatedMeaning(Select(s, entry), key);
    AccumulatedMeaning(Select(r + [tx], entry), key);
    MentionsConcat(Select(r, entry), Select([tx], entry), key);
    SaveChangesByDifference(txs, tx, entry, key);
  }

  /** Where every transaction counts once, a key stays exactly while its count is positive. */
  lemma CountStaysWhilePositive<K(!new)>(txs: seq<Transaction>, tx: Transaction,
          entry: Transaction -> Option<Entry<K>>, key: K)
    requires CountsEvery(entry)
    ensures key in Accumulated(Select(TransactionRepository.Saved(txs, tx), entry)) <==>
            SumFor(Select(txs, entry), key) + SumFor(Share(Some(tx), entry), key)
            > SumFor(Share(TransactionRepository.Found(txs, tx.id), entry), key)
  {
    hide Accumulated, Select, Mentions, SumFor;
    var s := TransactionRepository.Saved(txs, tx);
    SaveChangesByDifference(txs, tx, entry, key);
    AccumulatedMeaning(Select(s, entry), key);
    SelectsOnes(s, entry);
    PositiveWhenMentioned(Select(s, entry), key);
  }

  lemma {:induction false} SelectsOnes<K(!new)>(txs: seq<Transaction>, entry: Transaction -> Option<Entry<K>>)
    requires CountsEvery(entry)
    ensures forall i :: 0 <= i < |Select(txs, entry)| ==> Select(txs, entry)[i].weight == 1
  {
    if txs != [] {
      SelectsOnes(txs[..|txs| - 1], entry);
    }
  }
}
