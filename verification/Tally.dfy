/** Totals per key, as the dashboard's ordered maps accumulate them. */
module Tally {

  /** One contribution: a key and a weight. */
  datatype Entry<K> = Entry(key: K, weight: int)

  /** One turn of an accumulating loop: m[key] += weight, starting at zero. */
  function Add<K>(m: map<K, int>, e: Entry<K>): map<K, int> {
    m[e.key := (if e.key in m then m[e.key] else 0) + e.weight]
  }

  function Accumulated<K>(entries: seq<Entry<K>>): map<K, int> {
    if entries == [] then map[] else Add(Accumulated(entries[..|entries| - 1]), entries[|entries| - 1])
  }

  /** The weights of all entries. */
  function Sum<K>(entries: seq<Entry<K>>): int {
    if entries == [] then 0 else Sum(entries[..|entries| - 1]) + entries[|entries| - 1].weight
  }

  /** The weights of the entries with one key. */
  function SumFor<K(==)>(entries: seq<Entry<K>>, key: K): int {
    if entries == [] then 0
    else
      var last := entries[|entries| - 1];
      SumFor(entries[..|entries| - 1], key) + if last.key == key then last.weight else 0
  }

  predicate Mentions<K(==)>(entries: seq<Entry<K>>, key: K) {
    exists i :: 0 <= i < |entries| && entries[i].key == key
  }

  /** The accumulated map holds exactly the keys that occur, each with the sum of its own weights. */
  lemma {:induction false} AccumulatedMeaning<K>(entries: seq<Entry<K>>, key: K)
    ensures key in Accumulated(entries) <==> Mentions(entries, key)
    ensures key in Accumulated(entries) ==> Accumulated(entries)[key] == SumFor(entries, key)
    ensures key !in Accumulated(entries) ==> SumFor(entries, key) == 0
  {
    if entries != [] {
      var init, last := entries[..|entries| - 1], entries[|entries| - 1];
      AccumulatedMeaning(init, key);
      if Mentions(init, key) {
        var i :| 0 <= i < |init| && init[i].key == key;
        assert entries[i].key == key;
      }
      if Mentions(entries, key) && last.key != key {
        var i :| 0 <= i < |entries| && entries[i].key == key;
        assert init[i].key == key;
      }
      if last.key == key {
        assert entries[|entries| - 1].key == key;
      }
    }
  }

  lemma MentionsConcat<K>(a: seq<Entry<K>>, b: seq<Entry<K>>, key: K)
    ensures Mentions(a + b, key) <==> Mentions(a, key) || Mentions(b, key)
  {
    if i :| 0 <= i < |a| && a[i].key == key {
      assert (a + b)[i].key == key;
    }
    if i :| 0 <= i < |b| && b[i].key == key {
      assert (a + b)[|a| + i].key == key;
    }
    if i :| 0 <= i < |a + b| && (a + b)[i].key == key {
      assert if i < |a| then a[i].key == key else b[i - |a|].key == key;
    }
  }

  /** A count is positive exactly for the keys that occur. */
  lemma {:induction false} PositiveWhenMentioned<K>(entries: seq<Entry<K>>, key: K)
    requires forall i :: 0 <= i < |entries| ==> entries[i].weight == 1
    ensures SumFor(entries, key) >= 0 && (SumFor(entries, key) > 0 <==> Mentions(entries, key))
  {
    if entries != [] {
      var init, last := entries[..|entries| - 1], entries[|entries| - 1];
      PositiveWhenMentioned(init, key);
      assert entries == init + [last];
      MentionsConcat(init, [last], key);
      assert Mentions([last], key) <==> [last][0].key == key;
    }
  }

  // ----- nothing is lost: the map's values add up to all weights

  ghost function Total<K>(m: map<K, int>): int
    decreases |m|
  {
    if m == map[] then 0
    else
      var k :| k in m;
      assert |m - {k}| < |m| by { Smaller(m, k); }
      m[k] + Total(m - {k})
  }

  lemma Smaller<K>(m: map<K, int>, k: K)
    requires k in m
    ensures |m - {k}| == |m| - 1
  {
    assert (m - {k}).Keys == m.Keys - {k};
  }

  /** The choice of the first key does not matter. */
  lemma {:induction false} TotalWithout<K>(m: map<K, int>, k: K)
    requires k in m
    ensures Total(m) == m[k] + Total(m - {k})
    decreases |m|
  {
    var j :| j in m && Total(m) == m[j] + Total(m - {j});
    if j != k {
      Smaller(m, j);
      Smaller(m, k);
      TotalWithout(m - {j}, k);
      TotalWithout(m - {k}, j);
      assert m - {j} - {k} == m - {k} - {j};
    }
  }

  lemma TotalOfAdd<K>(m: map<K, int>, e: Entry<K>)
    ensures Total(Add(m, e)) == Total(m) + e.weight
  {
    var a := Add(m, e);
    TotalWithout(a, e.key);
    if e.key in m {
      TotalWithout(m, e.key);
      assert a - {e.key} == m - {e.key};
    } else {
      assert a - {e.key} == m;
    }
  }

  lemma {:induction false} TotalIsSum<K>(entries: seq<Entry<K>>)
    ensures Total(Accumulated(entries)) == Sum(entries)
  {
    if entries != [] {
      TotalIsSum(entries[..|entries| - 1]);
      TotalOfAdd(Accumulated(entries[..|entries| - 1]), entries[|entries| - 1]);
    }
  }

  // ----- order does not matter

  lemma {:induction false} SumConcat<K>(a: seq<Entry<K>>, b: seq<Entry<K>>, key: K)
    ensures Sum(a + b) == Sum(a) + Sum(b)
    ensures SumFor(a + b, key) == SumFor(a, key) + SumFor(b, key)
  {
    if b == [] {
      assert a + b == a;
    } else {
      assert (a + b)[..|a + b| - 1] == a + b[..|b| - 1];
      SumConcat(a, b[..|b| - 1], key);
    }
  }

  lemma LastCounted<T>(a: seq<T>)
    requires a != []
    ensures multiset(a) == multiset(a[..|a| - 1]) + multiset{a[|a| - 1]}
  {
    assert a == a[..|a| - 1] + [a[|a| - 1]];
  }

  lemma MiddleCounted<T>(b: seq<T>, i: nat)
    requires i < |b|
    ensures multiset(b) == multiset(b[..i] + b[i + 1..]) + multiset{b[i]}
  {
    assert b == b[..i] + [b[i]] + b[i + 1..];
  }

  lemma PlaceOf<T>(x: T, b: seq<T>) returns (i: nat)
    requires x in multiset(b)
    ensures i < |b| && b[i] == x
  {
    i :| 0 <= i < |b| && b[i] == x;
  }

  lemma CancelOne<T>(a: multiset<T>, b: multiset<T>, x: T)
    requires a + multiset{x} == b + multiset{x}
    ensures a == b
  {
    assert a + multiset{x} - multiset{x} == a;
    assert b + multiset{x} - multiset{x} == b;
  }

  /** Takes one element off two permutations. */
  lemma Unpermute<T>(a: seq<T>, b: seq<T>) returns (l: seq<T>, r: seq<T>)
    requires a != [] && multiset(a) == multiset(b)
    ensures b == l + [a[|a| - 1]] + r
    ensures multiset(a[..|a| - 1]) == multiset(l + r)
  {
    var last := a[|a| - 1];
    LastCounted(a);
    assert last in multiset(b);
    var i := PlaceOf(last, b);
    l, r := b[..i], b[i + 1..];
    MiddleCounted(b, i);
    CancelOne(multiset(a[..|a| - 1]), multiset(l + r), last);
  }

  lemma {:induction false} SumsOfPermutation<K>(a: seq<Entry<K>>, b: seq<Entry<K>>, key: K)
    requires multiset(a) == multiset(b)
    ensures Sum(a) == Sum(b) && SumFor(a, key) == SumFor(b, key)
  {
    if a == [] {
      assert |b| == |multiset(b)| == 0;
    } else {
      var last := a[|a| - 1];
      var l, r := Unpermute(a, b);
      SumsOfPermutation(a[..|a| - 1], l + r, key);
      SumConcat(l, r, key);
      SumConcat(l + [last], r, key);
      SumConcat(l, [last], key);
    }
  }

  /** Every order of the same entries accumulates to the same map. */
  lemma OrderIrrelevant<K(!new)>(a: seq<Entry<K>>, b: seq<Entry<K>>)
    requires multiset(a) == multiset(b)
    ensures Accumulated(a) == Accumulated(b)
  {
    hide Accumulated, Mentions, SumFor;
    var m, n := Accumulated(a), Accumulated(b);
    forall k ensures (k in m <==> k in n) && (k in m ==> m[k] == n[k]) {
      AccumulatedMeaning(a, k);
      AccumulatedMeaning(b, k);
      SumsOfPermutation(a, b, k);
      SameMentions(a, b, k);
    }
    assert m.Keys == n.Keys;
  }

  lemma SameMentions<K>(a: seq<Entry<K>>, b: seq<Entry<K>>, key: K)
    requires multiset(a) == multiset(b)
    ensures Mentions(a, key) <==> Mentions(b, key)
  {
    if i :| 0 <= i < |a| && a[i].key == key {
      assert a[i] in multiset(b);
    }
    if i :| 0 <= i < |b| && b[i].key == key {
      assert b[i] in multiset(a);
    }
  }
}
