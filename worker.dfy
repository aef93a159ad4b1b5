/**
 One load-testing client (`run_new_client`): local `inserted`/`failed`
 counters, each copied into the shared dictionary whenever it reaches a
 multiple of ten, driven by a bounded or unbounded loop of write attempts.
 The write itself is an outcome supplied from outside: `true` when
 `session.execute` raised.
 */
module Worker {
  import opened Keys

  datatype Option<T> = None | Some(value: T)

  /** A counter is copied to the shared dictionary whenever it is a multiple of this. */
  const FlushInterval: nat := 10

  /** The two local counts of one client, as a value. */
  datatype Counters = Counters(inserted: nat, failed: nat)

  function Value(c: Counters, which: Counter): nat
  {
    match which
    case Inserted => c.inserted
    case Failed => c.failed
  }

  /** What the shared dictionary shows once a counter has reached `local`:
      the largest multiple of the flush interval not above it. */
  function Decimated(local: nat): (r: nat)
    ensures r % FlushInterval == 0
    ensures r <= local < r + FlushInterval
  {
    local - local % FlushInterval
  }

  /** No larger multiple of the interval fits below `local`. */
  lemma DecimatedIsLargest(local: nat, m: nat)
    requires m % FlushInterval == 0 && m <= local
    ensures m <= Decimated(local)
  {
    var d := Decimated(local);
    assert m == FlushInterval * (m / FlushInterval);
    assert d == FlushInterval * (d / FlushInterval);
  }

  lemma DecimatedMonotone(a: nat, b: nat)
    requires a <= b
    ensures Decimated(a) <= Decimated(b)
  {
    DecimatedIsLargest(b, Decimated(a));
  }

  /** A key's value as the totals see it: an absent key adds nothing. */
  function Get0(m: map<string, int>, key: string): int
  {
    if key in m then m[key] else 0
  }

  /** `key` in `m` reflects a local count `local` of the counter it names:
      absent before the first flush, afterwards the last value flushed. */
  ghost predicate Publishes(m: map<string, int>, key: string, local: nat)
  {
    && (key in m <==> local >= FlushInterval)
    && (key in m ==> m[key] == Decimated(local))
  }

  /** The published value never exceeds the local count, trails it by less
      than the flush interval, and only lands on multiples of it. */
  lemma PublishedTrailsLocal(m: map<string, int>, key: string, local: nat)
    requires Publishes(m, key, local)
    ensures 0 <= Get0(m, key) <= local < Get0(m, key) + FlushInterval
    ensures Get0(m, key) % FlushInterval == 0
  {
  }

  /** `if local % 10 == 0: shared[key] = local`. */
  function Flush(m: map<string, int>, key: string, local: nat): map<string, int>
  {
    if local % FlushInterval == 0 then m[key := local] else m
  }

  /** Incrementing a counter and then flushing it keeps the shared entry in
      step with it, and touches no other key. */
  lemma FlushKeepsPublishes(m: map<string, int>, key: string, local: nat)
    requires Publishes(m, key, local)
    ensures Publishes(Flush(m, key, local + 1), key, local + 1)
    ensures Flush(m, key, local + 1) - {key} == m - {key}
  {
    if (local + 1) % FlushInterval != 0 {
      assert Decimated(local + 1) == Decimated(local);
    }
  }

  /** How many of the outcomes are failed writes. */
  function CountRaised(outcomes: seq<bool>): (r: nat)
    ensures r <= |outcomes|
  {
    if outcomes == [] then 0
    else CountRaised(outcomes[..|outcomes| - 1]) + (if outcomes[|outcomes| - 1] then 1 else 0)
  }

  /** When every write raises, every attempt is a failure. */
  lemma {:induction false} AllRaisedCount(outcomes: seq<bool>)
    requires forall i :: 0 <= i < |outcomes| ==> outcomes[i]
    ensures CountRaised(outcomes) == |outcomes|
  {
    if outcomes != [] {
      AllRaisedCount(outcomes[..|outcomes| - 1]);
    }
  }

  /** When no write raises, nothing is a failure. */
  lemma {:induction false} NoneRaisedCount(outcomes: seq<bool>)
    requires forall i :: 0 <= i < |outcomes| ==> !outcomes[i]
    ensures CountRaised(outcomes) == 0
  {
    if outcomes != [] {
      NoneRaisedCount(outcomes[..|outcomes| - 1]);
    }
  }

  /** Number of loop iterations: `range(0, rows_count)` for a given count
      (none for a negative one); for `None` the loop never ends, and the
      model runs the `available` attempts it is shown. */
  function Attempts(rowsCount: Option<int>, available: nat): nat
  {
    match rowsCount
    case None => available
    case Some(n) => if n < 0 then 0 else n
  }

  /** The process-shared dictionary `shared_rows_counts`. */
  class SharedRowsCounts {
    var counts: map<string, int>

    constructor ()
      ensures counts == map[]
    {
      counts := map[];
    }
  }

  /** The state of one client: its number, the shared dictionary it was
      handed and its local `rows_counts`. */
  class Client {
    const number: nat
    const store: SharedRowsCounts
    var inserted: nat
    var failed: nat

    /** Failures are a subset of attempts, and both of this client's shared
        entries are in step with the local counters. */
    ghost predicate Valid()
      reads this, store
    {
      && failed <= inserted
      && Publishes(store.counts, Key(Inserted, number), inserted)
      && Publishes(store.counts, Key(Failed, number), failed)
    }

    function Counts(): Counters
      reads this
    {
      Counters(inserted, failed)
    }

    /** Lines 104-109: both local counters start at zero; the client's keys
        are not yet in the shared dictionary. */
    constructor (number: nat, store: SharedRowsCounts)
      requires OwnKeys(number) !! store.counts.Keys
      ensures this.number == number && this.store == store
      ensures inserted == 0 && failed == 0
      ensures Valid()
    {
      this.number := number;
      this.store := store;
      inserted, failed := 0, 0;
    }

    /** `insert_new_row`, given whether the write raised. */
    method InsertNewRow(raised: bool)
      requires Valid()
      modifies this, store
      ensures Valid()
      ensures inserted == old(inserted) + 1
      ensures failed == old(failed) + (if raised then 1 else 0)
      ensures store.counts - OwnKeys(number) == old(store.counts) - OwnKeys(number)
      ensures Get0(old(store.counts), Key(Inserted, number)) <= Get0(store.counts, Key(Inserted, number))
      ensures Get0(old(store.counts), Key(Failed, number)) <= Get0(store.counts, Key(Failed, number))
    {
      var insertedKey, failedKey := Key(Inserted, number), Key(Failed, number);
      if raised {
        FlushKeepsPublishes(store.counts, failedKey, failed);
        failed := failed + 1;
        store.counts := Flush(store.counts, failedKey, failed);
      }
      FlushKeepsPublishes(store.counts, insertedKey, inserted);
      inserted := inserted + 1;
      store.counts := Flush(store.counts, insertedKey, inserted);
      DecimatedMonotone(old(inserted), inserted);
      DecimatedMonotone(old(failed), failed);
    }
  }

  /** `run_new_client` from line 104: a fresh client performs one attempt
      per loop iteration, `outcomes[i]` telling whether attempt `i` raised. */
  method RunNewClient(number: nat, rowsCount: Option<int>, outcomes: seq<bool>, store: SharedRowsCounts)
    returns (client: Client)
    requires OwnKeys(number) !! store.counts.Keys
    requires rowsCount.Some? ==> rowsCount.value <= |outcomes|
    modifies store
    ensures fresh(client) && client.number == number && client.store == store
    ensures client.Valid()
    ensures client.inserted == Attempts(rowsCount, |outcomes|)
    ensures client.failed == CountRaised(outcomes[..client.inserted])
    ensures store.counts - OwnKeys(number) == old(store.counts) - OwnKeys(number)
  {
    client := new Client(number, store);
    var n := Attempts(rowsCount, |outcomes|);
    for i := 0 to n
      invariant client.Valid()
      invariant client.inserted == i
      invariant client.failed == CountRaised(outcomes[..i])
      invariant store.counts - OwnKeys(number) == old(store.counts) - OwnKeys(number)
    {
      client.InsertNewRow(outcomes[i]);
      assert outcomes[..i + 1][..i] == outcomes[..i];
    }
  }
}
