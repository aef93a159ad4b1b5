/**
 The totals `log_rows_counts` computes from a snapshot of the shared
 dictionary, the map-level sums they stand for, and what those sums are
 when every client's entries are in step with its local counters.
 */
module Aggregation {
  import opened Keys
  import opened Worker

  /** `sum(map(lambda x: x[1], filter(lambda x: x[0].startswith(prefix), items)))`. */
  function SumWithPrefix(items: seq<(string, int)>, prefix: string): int
  {
    if items == [] then 0
    else (if StartsWith(items[0].0, prefix) then items[0].1 else 0) + SumWithPrefix(items[1..], prefix)
  }

  /** `items` lists the entries of `m`, each key once, in some order, as
      `dict.items()` does. */
  ghost predicate ItemsOf(items: seq<(string, int)>, m: map<string, int>)
  {
    && (forall i :: 0 <= i < |items| ==> items[i].0 in m && m[items[i].0] == items[i].1)
    && (forall i, j :: 0 <= i < j < |items| ==> items[i].0 != items[j].0)
    && (forall k :: k in m ==> exists i :: 0 <= i < |items| && items[i].0 == k)
  }

  /** The sum of `m`'s values over `keys`, independent of any order. */
  ghost function SumOver(m: map<string, int>, keys: set<string>): int
    requires keys <= m.Keys
    decreases keys
  {
    if keys == {} then 0 else var k :| k in keys; m[k] + SumOver(m, keys - {k})
  }

  /** Any key may be taken out of the sum first. */
  lemma {:induction false} SumOverRemove(m: map<string, int>, keys: set<string>, k: string)
    requires keys <= m.Keys && k in keys
    ensures SumOver(m, keys) == m[k] + SumOver(m, keys - {k})
    decreases keys
  {
    var j :| j in keys && SumOver(m, keys) == m[j] + SumOver(m, keys - {j});
    if j != k {
      SumOverRemove(m, keys - {j}, k);
      SumOverRemove(m, keys - {k}, j);
      assert keys - {j} - {k} == keys - {k} - {j};
    }
  }

  /** The sum over `keys` depends only on the values at those keys. */
  lemma {:induction false} SumOverAgree(m1: map<string, int>, m2: map<string, int>, keys: set<string>)
    requires keys <= m1.Keys && keys <= m2.Keys
    requires forall k :: k in keys ==> m1[k] == m2[k]
    ensures SumOver(m1, keys) == SumOver(m2, keys)
    decreases keys
  {
    if keys != {} {
      var k :| k in keys;
      SumOverRemove(m1, keys, k);
      SumOverRemove(m2, keys, k);
      SumOverAgree(m1, m2, keys - {k});
    }
  }

  /** The keys of `m` that start with `prefix`. */
  ghost function PrefixKeys(m: map<string, int>, prefix: string): set<string>
  {
    set k | k in m && StartsWith(k, prefix)
  }

  /** The sum of the values of exactly those keys of `m` that start with `prefix`. */
  ghost function PrefixTotal(m: map<string, int>, prefix: string): int
  {
    SumOver(m, PrefixKeys(m, prefix))
  }

  /** However the snapshot's items are ordered, the filtered sum is the sum
      over exactly the keys with that prefix. */
  lemma {:induction false} SumWithPrefixIsPrefixTotal(items: seq<(string, int)>, m: map<string, int>, prefix: string)
    requires ItemsOf(items, m)
    ensures SumWithPrefix(items, prefix) == PrefixTotal(m, prefix)
    decreases |items|
  {
    if items == [] {
      assert PrefixKeys(m, prefix) == {};
    } else {
      var k0 := items[0].0;
      var rest := m - {k0};
      forall k | k in rest
        ensures exists i :: 0 <= i < |items[1..]| && items[1..][i].0 == k
      {
        var i :| 0 <= i < |items| && items[i].0 == k;
        assert items[1..][i - 1].0 == k;
      }
      assert ItemsOf(items[1..], rest);
      SumWithPrefixIsPrefixTotal(items[1..], rest, prefix);
      var keys := PrefixKeys(m, prefix);
      if StartsWith(k0, prefix) {
        assert PrefixKeys(rest, prefix) == keys - {k0};
        SumOverRemove(m, keys, k0);
        SumOverAgree(m, rest, keys - {k0});
      } else {
        assert PrefixKeys(rest, prefix) == keys;
        SumOverAgree(m, rest, keys);
      }
    }
  }

  /** Adding a new key changes a total exactly when it carries the prefix. */
  lemma AddKeyTotal(m: map<string, int>, k: string, v: int, prefix: string)
    requires k !in m
    ensures PrefixTotal(m[k := v], prefix) == PrefixTotal(m, prefix) + (if StartsWith(k, prefix) then v else 0)
  {
    var m2 := m[k := v];
    var keys := PrefixKeys(m, prefix);
    if StartsWith(k, prefix) {
      assert PrefixKeys(m2, prefix) - {k} == keys;
      SumOverRemove(m2, PrefixKeys(m2, prefix), k);
    } else {
      assert PrefixKeys(m2, prefix) == keys;
    }
    SumOverAgree(m2, m, keys);
  }

  /** A client's entry once its counter has reached `local`. */
  function Put(m: map<string, int>, key: string, local: nat): map<string, int>
  {
    if local >= FlushInterval then m[key := Decimated(local)] else m
  }

  /** The shared dictionary of a run whose client `i` holds the local counts
      `cs[i]`, every entry in step with its counter. */
  ghost function StoreOf(cs: seq<Counters>): map<string, int>
    decreases |cs|
  {
    if cs == [] then map[]
    else
      var n := |cs| - 1;
      Put(Put(StoreOf(cs[..n]), Key(Inserted, n), cs[n].inserted), Key(Failed, n), cs[n].failed)
  }

  ghost predicate OwnedBelow(k: string, n: nat)
  {
    exists which: Counter, i: nat :: i < n && k == Key(which, i)
  }

  /** Every key of the store belongs to one of its clients. */
  lemma {:induction false} StoreOfKeys(cs: seq<Counters>, k: string)
    requires k in StoreOf(cs)
    ensures OwnedBelow(k, |cs|)
    decreases |cs|
  {
    var n := |cs| - 1;
    if k != Key(Inserted, n) && k != Key(Failed, n) {
      StoreOfKeys(cs[..n], k);
      var which: Counter, i: nat :| i < n && k == Key(which, i);
    }
  }

  /** The next client's keys are not yet in the store. */
  lemma NextKeysAbsent(cs: seq<Counters>, which: Counter)
    ensures Key(which, |cs|) !in StoreOf(cs)
  {
    if Key(which, |cs|) in StoreOf(cs) {
      StoreOfKeys(cs, Key(which, |cs|));
      var w: Counter, i: nat :| i < |cs| && Key(which, |cs|) == Key(w, i);
      KeyInjective(which, |cs|, w, i);
    }
  }

  /** In the store every client's entries are in step with its counters. */
  lemma {:induction false} StoreOfPublishes(cs: seq<Counters>, i: nat, which: Counter)
    requires i < |cs|
    ensures Publishes(StoreOf(cs), Key(which, i), Value(cs[i], which))
    decreases |cs|
  {
    var n := |cs| - 1;
    var m0 := StoreOf(cs[..n]);
    var k := Key(which, i);
    assert Key(Inserted, n) != Key(Failed, n);
    if i == n {
      NextKeysAbsent(cs[..n], which);
    } else {
      StoreOfPublishes(cs[..n], i, which);
      assert cs[..n][i] == cs[i];
      if k == Key(Inserted, n) { KeyInjective(which, i, Inserted, n); }
      if k == Key(Failed, n) { KeyInjective(which, i, Failed, n); }
    }
  }

  /** `m` holds exactly the entries of clients `0 .. |cs|-1`, each in step
      with that client's local counts. */
  ghost predicate InStep(m: map<string, int>, cs: seq<Counters>)
  {
    && (forall which: Counter, i: nat :: i < |cs| ==> Publishes(m, Key(which, i), Value(cs[i], which)))
    && (forall k :: k in m ==> OwnedBelow(k, |cs|))
  }

  /** Such a dictionary is the store of `cs`. */
  lemma StoreIsStoreOf(m: map<string, int>, cs: seq<Counters>)
    requires InStep(m, cs)
    ensures m == StoreOf(cs)
  {
    var s := StoreOf(cs);
    forall k | k in m || k in s
      ensures k in m && k in s && m[k] == s[k]
    {
      if k !in m { StoreOfKeys(cs, k); }
      var which: Counter, i: nat :| i < |cs| && k == Key(which, i);
      StoreOfPublishes(cs, i, which);
    }
  }

  /** The next client's keys are not yet in such a dictionary. */
  lemma InStepNextKeysAbsent(m: map<string, int>, cs: seq<Counters>)
    requires InStep(m, cs)
    ensures OwnKeys(|cs|) !! m.Keys
  {
    StoreIsStoreOf(m, cs);
    NextKeysAbsent(cs, Inserted);
    NextKeysAbsent(cs, Failed);
  }

  /** When the next client has run, touching only its own keys and leaving
      them in step with its counts `c`, the dictionary is in step with `cs + [c]`. */
  lemma InStepExtend(before: map<string, int>, after: map<string, int>, cs: seq<Counters>, c: Counters)
    requires InStep(before, cs)
    requires after - OwnKeys(|cs|) == before - OwnKeys(|cs|)
    requires Publishes(after, Key(Inserted, |cs|), c.inserted)
    requires Publishes(after, Key(Failed, |cs|), c.failed)
    ensures InStep(after, cs + [c])
  {
    var n := |cs|;
    var cs' := cs + [c];
    forall which: Counter, i: nat | i < |cs'|
      ensures Publishes(after, Key(which, i), Value(cs'[i], which))
    {
      if i < n {
        var k := Key(which, i);
        if k in OwnKeys(n) {
          var w: Counter :| k == Key(w, n);
          KeyInjective(which, i, w, n);
        }
        assert k in after <==> k in after - OwnKeys(n);
        assert k in before <==> k in before - OwnKeys(n);
        assert k in after ==> after[k] == (after - OwnKeys(n))[k];
        assert k in before ==> before[k] == (before - OwnKeys(n))[k];
      } else {
        assert which == Inserted || which == Failed;
      }
    }
    forall k | k in after
      ensures OwnedBelow(k, n + 1)
    {
      if k == Key(Inserted, n) {
        assert n < n + 1 && k == Key(Inserted, n);
      } else if k == Key(Failed, n) {
        assert n < n + 1 && k == Key(Failed, n);
      } else {
        assert k in after - OwnKeys(n);
        assert k in before;
        var which: Counter, i: nat :| i < n && k == Key(which, i);
      }
    }
  }

  /** The sum of one counter over all clients: what they actually counted. */
  function TrueTotal(cs: seq<Counters>, which: Counter): nat
  {
    if cs == [] then 0 else TrueTotal(cs[..|cs| - 1], which) + Value(cs[|cs| - 1], which)
  }

  /** The sum of what each client last published for that counter. */
  function PublishedTotal(cs: seq<Counters>, which: Counter): nat
  {
    if cs == [] then 0 else PublishedTotal(cs[..|cs| - 1], which) + Decimated(Value(cs[|cs| - 1], which))
  }

  /** The total read from the store is the sum of the published values. */
  lemma {:induction false} StoreTotal(cs: seq<Counters>, which: Counter)
    ensures PrefixTotal(StoreOf(cs), Prefix(which)) == PublishedTotal(cs, which)
    decreases |cs|
  {
    if cs == [] {
      assert PrefixKeys(map[], Prefix(which)) == {};
    } else {
      var n := |cs| - 1;
      var m0 := StoreOf(cs[..n]);
      var m1 := Put(m0, Key(Inserted, n), cs[n].inserted);
      StoreTotal(cs[..n], which);
      NextKeysAbsent(cs[..n], Inserted);
      NextKeysAbsent(cs[..n], Failed);
      var p := Prefix(which);
      assert StartsWith(Key(Inserted, n), p) <==> which == Inserted;
      assert StartsWith(Key(Failed, n), p) <==> which == Failed;
      if cs[n].inserted >= FlushInterval {
        AddKeyTotal(m0, Key(Inserted, n), Decimated(cs[n].inserted), p);
      }
      if cs[n].failed >= FlushInterval {
        AddKeyTotal(m1, Key(Failed, n), Decimated(cs[n].failed), p);
      }
    }
  }

  /** Each client under-reports by less than the flush interval, and never over-reports. */
  lemma {:induction false} UndercountBound(cs: seq<Counters>, which: Counter)
    ensures PublishedTotal(cs, which) <= TrueTotal(cs, which)
    ensures TrueTotal(cs, which) <= PublishedTotal(cs, which) + (FlushInterval - 1) * |cs|
    decreases |cs|
  {
    if cs != [] {
      UndercountBound(cs[..|cs| - 1], which);
    }
  }

  /** The totals a poll computes from a snapshot of a run's store: never
      above the true counts, and below them by at most nine per client. */
  lemma SnapshotTotals(items: seq<(string, int)>, m: map<string, int>, cs: seq<Counters>, which: Counter)
    requires InStep(m, cs)
    requires ItemsOf(items, m)
    ensures SumWithPrefix(items, Prefix(which)) == PublishedTotal(cs, which)
    ensures SumWithPrefix(items, Prefix(which)) <= TrueTotal(cs, which)
    ensures TrueTotal(cs, which) <= SumWithPrefix(items, Prefix(which)) + (FlushInterval - 1) * |cs|
  {
    StoreIsStoreOf(m, cs);
    SumWithPrefixIsPrefixTotal(items, m, Prefix(which));
    StoreTotal(cs, which);
    UndercountBound(cs, which);
  }

  /** Two clients of 25 rows each: 50 attempts, 40 of them visible. */
  lemma TwoClientsOfTwentyFive(f1: nat, f2: nat)
    requires f1 <= 25 && f2 <= 25
    ensures TrueTotal([Counters(25, f1), Counters(25, f2)], Inserted) == 50
    ensures PublishedTotal([Counters(25, f1), Counters(25, f2)], Inserted) == 40
  {
    var cs := [Counters(25, f1), Counters(25, f2)];
    assert cs[..1] == [Counters(25, f1)];
    assert cs[..1][..0] == [];
    assert TrueTotal(cs[..1], Inserted) == 25;
    assert PublishedTotal(cs[..1], Inserted) == 20;
  }
}
