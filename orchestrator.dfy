/**
 The state `run_load_test_async` keeps between polls: the shared
 rows-counts dictionary it hands to every client and the one-element cell
 `last_failed_rows_count`; and one poll, `log_rows_counts`.
 */
module Orchestrator {
  import opened Keys
  import opened Worker
  import opened Aggregation
  import opened Escalation

  /** The level a progress line is logged at. */
  datatype Level = Info | Warning

  class LoadTest {
    const store: SharedRowsCounts
    var lastFailedRowsCount: int

    /** Lines 143-144: an empty shared dictionary and a cell holding 0. */
    constructor ()
      ensures fresh(store) && store.counts == map[]
      ensures lastFailedRowsCount == 0
    {
      store := new SharedRowsCounts();
      lastFailedRowsCount := 0;
    }

    /** One poll. `items` is `dict(shared_rows_counts).items()`, the
        snapshot's entries in the dictionary's own order. */
    method LogRowsCounts(items: seq<(string, int)>) returns (inserted: int, failed: int, level: Level)
      requires ItemsOf(items, store.counts)
      modifies this
      ensures inserted == PrefixTotal(store.counts, "inserted")
      ensures failed == PrefixTotal(store.counts, "failed")
      ensures level == Warning <==> Warns(old(lastFailedRowsCount), failed)
      ensures lastFailedRowsCount == NextLast(old(lastFailedRowsCount), failed)
    {
      inserted := SumWithPrefix(items, "inserted");
      failed := SumWithPrefix(items, "failed");
      SumWithPrefixIsPrefixTotal(items, store.counts, "inserted");
      SumWithPrefixIsPrefixTotal(items, store.counts, "failed");
      if failed % Period > lastFailedRowsCount {
        level := Warning;
        lastFailedRowsCount := failed;
      } else {
        level := Info;
      }
    }
  }

  /** A poll of a run whose clients' entries are in step with their local
      counts reports, for each counter, the sum of what the clients last
      published: at most the true total and at least the true total minus
      nine per client. */
  method PollRun(test: LoadTest, items: seq<(string, int)>, ghost cs: seq<Counters>)
    returns (inserted: int, failed: int, level: Level)
    requires InStep(test.store.counts, cs)
    requires ItemsOf(items, test.store.counts)
    modifies test
    ensures inserted == PublishedTotal(cs, Inserted) && failed == PublishedTotal(cs, Failed)
    ensures inserted <= TrueTotal(cs, Inserted) <= inserted + (FlushInterval - 1) * |cs|
    ensures failed <= TrueTotal(cs, Failed) <= failed + (FlushInterval - 1) * |cs|
    ensures level == Warning <==> Warns(old(test.lastFailedRowsCount), failed)
    ensures test.lastFailedRowsCount == NextLast(old(test.lastFailedRowsCount), failed)
  {
    SnapshotTotals(items, test.store.counts, cs, Inserted);
    SnapshotTotals(items, test.store.counts, cs, Failed);
    inserted, failed, level := test.LogRowsCounts(items);
    SumWithPrefixIsPrefixTotal(items, test.store.counts, "inserted");
    SumWithPrefixIsPrefixTotal(items, test.store.counts, "failed");
  }

  /** Every client is shown enough outcomes for its loop. */
  ghost predicate Covers(rowsCount: Option<int>, outcomes: seq<seq<bool>>)
  {
    forall j :: 0 <= j < |outcomes| ==> (rowsCount.Some? ==> rowsCount.value <= |outcomes[j]|)
  }

  /** The local counts a client ends with when attempt `i` raises exactly
      when `outcomes[i]` holds. */
  function ClientCounts(rowsCount: Option<int>, outcomes: seq<bool>): Counters
    requires rowsCount.Some? ==> rowsCount.value <= |outcomes|
  {
    var n := Attempts(rowsCount, |outcomes|);
    Counters(n, CountRaised(outcomes[..n]))
  }

  /** The local counts of every client of a run, client `j` seeing `outcomes[j]`. */
  function RunCounts(rowsCount: Option<int>, outcomes: seq<seq<bool>>): seq<Counters>
    requires Covers(rowsCount, outcomes)
  {
    seq(|outcomes|, j requires 0 <= j < |outcomes| => ClientCounts(rowsCount, outcomes[j]))
  }

  /** A bounded run of `W` clients attempts `rows_count * W` rows in all. */
  lemma {:induction false} BoundedRunAttempts(n: nat, outcomes: seq<seq<bool>>)
    requires Covers(Some(n), outcomes)
    ensures TrueTotal(RunCounts(Some(n), outcomes), Inserted) == n * |outcomes|
    decreases |outcomes|
  {
    if outcomes != [] {
      var w := |outcomes| - 1;
      assert RunCounts(Some(n), outcomes)[..w] == RunCounts(Some(n), outcomes[..w]);
      BoundedRunAttempts(n, outcomes[..w]);
    }
  }

  /** When every write raises, a bounded run of `W` clients fails
      `rows_count * W` rows in all, as many as it attempts. */
  lemma {:induction false} AllFailingRun(n: nat, outcomes: seq<seq<bool>>)
    requires Covers(Some(n), outcomes)
    requires forall j, i :: 0 <= j < |outcomes| && 0 <= i < |outcomes[j]| ==> outcomes[j][i]
    ensures TrueTotal(RunCounts(Some(n), outcomes), Failed) == n * |outcomes|
    decreases |outcomes|
  {
    if outcomes != [] {
      var w := |outcomes| - 1;
      assert RunCounts(Some(n), outcomes)[..w] == RunCounts(Some(n), outcomes[..w]);
      AllFailingRun(n, outcomes[..w]);
      AllRaisedCount(outcomes[w][..n]);
    }
  }

  /** One schedule of the run of lines 169-181: clients `0 .. W-1` run one
      after another against the test's shared dictionary, client `j` seeing
      the write outcomes `outcomes[j]`. */
  method RunClientsInTurn(test: LoadTest, rowsCount: Option<int>, outcomes: seq<seq<bool>>)
    returns (clients: seq<Client>)
    requires test.store.counts == map[]
    requires Covers(rowsCount, outcomes)
    modifies test.store
    ensures |clients| == |outcomes|
    ensures forall j :: 0 <= j < |clients| ==>
      && clients[j].number == j && clients[j].store == test.store
      && clients[j].Valid() && clients[j].Counts() == ClientCounts(rowsCount, outcomes[j])
    ensures InStep(test.store.counts, RunCounts(rowsCount, outcomes))
  {
    var store := test.store;
    clients := [];
    ghost var cs: seq<Counters> := [];
    for j := 0 to |outcomes|
      invariant |clients| == |cs| == j
      invariant cs == RunCounts(rowsCount, outcomes)[..j]
      invariant forall i :: 0 <= i < j ==>
        clients[i].number == i && clients[i].store == store && clients[i].Counts() == cs[i]
      invariant InStep(store.counts, cs)
    {
      ghost var before := store.counts;
      InStepNextKeysAbsent(before, cs);
      var client := RunNewClient(j, rowsCount, outcomes[j], store);
      InStepExtend(before, store.counts, cs, client.Counts());
      clients := clients + [client];
      cs := cs + [client.Counts()];
    }
    assert cs == RunCounts(rowsCount, outcomes);
    forall j | 0 <= j < |clients|
      ensures clients[j].Valid()
    {
      assert Publishes(store.counts, Key(Inserted, j), Value(cs[j], Inserted));
      assert Publishes(store.counts, Key(Failed, j), Value(cs[j], Failed));
    }
  }
}
