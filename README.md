# Load-testing client: counting, publishing and reporting

This project models the sequential core of the Cassandra load-testing
client, `Cassandra/load_testing_client/main.py`. Each client process
(`run_new_client`) writes rows and keeps two local counters, `inserted_<n>`
and `failed_<n>`. It copies each counter into a process-shared dictionary
whenever that counter reaches a multiple of ten. The parent
(`run_load_test_async`) polls the dictionary, sums the `inserted*` and
`failed*` entries and logs the totals. It logs at warning level when the
failed total modulo 1000 exceeds the value it last stored.

Modules, one per component of that file:

- `Keys` (keys.dfy): `str(number)`, the two key f-strings and `str.startswith`.
  A key's prefix tells which counter it names. Different clients never share a key.
- `Worker` (worker.dfy): the shared dictionary as a class `SharedRowsCounts`
  with a `map<string, int>` field. The client is a class `Client` holding its
  number, a reference to the shared dictionary and its two local counters.
  `InsertNewRow` is `insert_new_row`. The write is an outcome supplied from
  outside (`true` when `session.execute` raised). `RunNewClient` is the driver
  loop over those outcomes.
- `Aggregation` (aggregation.dfy): the filtered sums over a snapshot's items.
  Each sum is proved equal to a map-level sum over exactly the keys with that
  prefix, whatever the item order. Then comes the whole-run theorem: the totals
  read from the store of a run never exceed what the clients counted, and fall
  short by at most nine per client.
- `Escalation` (escalation.dfy): the severity rule as the code writes it, with
  its properties over any sequence of polls. Also a corrected rule that warns
  once each time the failed total reaches a new multiple of 1000 (see Findings).
- `Orchestrator` (orchestrator.dfy): the parent's state, a class `LoadTest`
  holding the shared dictionary and the cell `last_failed_rows_count[0]`. It
  has one poll (`LogRowsCounts`) and one sequential schedule of a whole run
  (`RunClientsInTurn`).

The model follows the code as written, including these points:

- The decimation interval is fixed at 10.
- There is no validation of the id bounds.
- The escalation rule compares `failed % 1000` with the full failed count last
  stored. It does not warn once per new multiple of 1000, which is what it
  evidently means to do (see Findings).
- `inserted` counts attempts, whether or not the write raised.

## Model

| member | source | states |
|---|---|---|
| `Keys.DecimalString` | Cassandra/load_testing_client/main.py:104-105 | `str(number)` is a non-empty string of decimal digits with no leading zero |
| `Keys.DecimalRoundTrip` | Cassandra/load_testing_client/main.py:104-105 | reading the printed number back gives the number |
| `Keys.DecimalStringInjective` | Cassandra/load_testing_client/main.py:104-105 | different numbers print differently |
| `Keys.StartsWith` | Cassandra/load_testing_client/main.py:152 | `str.startswith`: the first characters of the key are the prefix (no ensures; its meaning for the real keys is stated by `Keys.Key`) |
| `Keys.Key` | Cassandra/load_testing_client/main.py:104-105 | `inserted_<n>` starts with "inserted" and not "failed"; `failed_<n>` the reverse |
| `Keys.KeyInjective` | Cassandra/load_testing_client/main.py:104-105 | a key determines both the counter and the client number |
| `Keys.DistinctClientsOwnDisjointKeys` | Cassandra/load_testing_client/main.py:104-105 | clients with different numbers own disjoint key pairs |
| `Worker.Decimated` | Cassandra/load_testing_client/main.py:119-124 | the published value is a multiple of 10, at most the local count and less than 10 below it |
| `Worker.DecimatedIsLargest` | Cassandra/load_testing_client/main.py:119-124 | no larger multiple of 10 lies at or below the local count |
| `Worker.DecimatedMonotone` | Cassandra/load_testing_client/main.py:119-124 | a higher local count never publishes a lower value |
| `Worker.PublishedTrailsLocal` | Cassandra/load_testing_client/main.py:119-124 | an entry in step with its counter (0 when absent) lies in `(local - 10, local]` and is a multiple of 10 |
| `Worker.Flush` | Cassandra/load_testing_client/main.py:119-124 | copy a counter into its shared entry exactly when it is a multiple of 10 (no ensures; its meaning is given by `Worker.FlushKeepsPublishes`) |
| `Worker.FlushKeepsPublishes` | Cassandra/load_testing_client/main.py:119-124 | after an increment, flushing exactly at multiples of 10 keeps the entry in step with the counter and touches no other key |
| `Worker.CountRaised` | Cassandra/load_testing_client/main.py:115-118 | failed writes never outnumber attempts |
| `Worker.AllRaisedCount` | Cassandra/load_testing_client/main.py:115-118 | when every write raises, every attempt counts as failed |
| `Worker.NoneRaisedCount` | Cassandra/load_testing_client/main.py:115-118 | when no write raises, nothing counts as failed |
| `Worker.Attempts` | Cassandra/load_testing_client/main.py:126-131 | iterations of the driver loop: `max(0, rows_count)` for `range(0, rows_count)`, the observed prefix for `while True` (no ensures; used by `Worker.RunNewClient` and `Orchestrator.BoundedRunAttempts`) |
| `Worker.SharedRowsCounts.constructor` | Cassandra/load_testing_client/main.py:143 | the shared dictionary starts empty |
| `Worker.Client.constructor` | Cassandra/load_testing_client/main.py:104-109 | both local counters start at 0; given the client's keys are absent, its entries are in step |
| `Worker.Client.InsertNewRow` | Cassandra/load_testing_client/main.py:112-124 | `inserted` grows by exactly 1, `failed` by 1 exactly when the write raised; both entries stay in step (so `failed <= inserted`, each published value trails its counter by less than 10 and never decreases); every other key is unchanged |
| `Worker.RunNewClient` | Cassandra/load_testing_client/main.py:104-131 | a fresh client performs `max(0, rows_count)` attempts (or the given prefix of the endless loop), ends with `inserted` equal to that number and `failed` equal to the raised writes among them, keeps its entries in step and changes no other key |
| `Aggregation.SumWithPrefix` | Cassandra/load_testing_client/main.py:148-159 | `sum(map(lambda x: x[1], filter(lambda x: x[0].startswith(prefix), items)))` (no ensures; its meaning is given by `Aggregation.SumWithPrefixIsPrefixTotal`) |
| `Aggregation.ItemsOf` | Cassandra/load_testing_client/main.py:147-153 | `dict(...).items()`: every entry of the snapshot once, with its value, in some order (no ensures; a precondition of `Aggregation.SumWithPrefixIsPrefixTotal`) |
| `Aggregation.SumOverRemove` | Cassandra/load_testing_client/main.py:148-159 | the map-level sum may take out any key first: it does not depend on order |
| `Aggregation.SumOverAgree` | Cassandra/load_testing_client/main.py:148-159 | a sum over a set of keys depends only on the values at those keys |
| `Aggregation.SumWithPrefixIsPrefixTotal` | Cassandra/load_testing_client/main.py:147-159 | in any order of the snapshot's items, the filtered sum equals the sum over exactly the keys starting with the prefix |
| `Aggregation.AddKeyTotal` | Cassandra/load_testing_client/main.py:148-159 | a new key changes a total by its value exactly when it starts with the prefix |
| `Aggregation.StoreOfKeys` | Cassandra/load_testing_client/main.py:104-124 | every key of a run's store belongs to one of its clients |
| `Aggregation.NextKeysAbsent` | Cassandra/load_testing_client/main.py:104-109 | the next client's keys are absent from the store of the clients before it |
| `Aggregation.StoreOfPublishes` | Cassandra/load_testing_client/main.py:104-124 | in a run's store each client's two entries are in step with its counters |
| `Aggregation.StoreIsStoreOf` | Cassandra/load_testing_client/main.py:104-124 | a dictionary in step with the clients' counters, holding no other key, is the run's store |
| `Aggregation.InStepNextKeysAbsent` | Cassandra/load_testing_client/main.py:104-109 | such a dictionary does not yet hold the next client's keys |
| `Aggregation.InStepExtend` | Cassandra/load_testing_client/main.py:112-124 | a client that changes only its own keys and leaves them in step keeps every other client in step |
| `Aggregation.StoreTotal` | Cassandra/load_testing_client/main.py:147-159 | the total read for a counter is the sum of the clients' published values |
| `Aggregation.UndercountBound` | Cassandra/load_testing_client/main.py:119-124 | the published sum never exceeds the true sum and is at most 9 per client below it |
| `Aggregation.SnapshotTotals` | Cassandra/load_testing_client/main.py:147-159 | a poll of a run's store reports for each counter a total ≤ the true total and ≥ it minus 9 per client |
| `Aggregation.TwoClientsOfTwentyFive` | Cassandra/load_testing_client/main.py:119-124 | two clients of 25 rows attempt 50 rows; the dictionary shows 40 of them (flushes at 10 and 20) |
| `Escalation.Warns` | Cassandra/load_testing_client/main.py:162 | `failed % 1000 > last` (no ensures; its consequences are `Escalation.SilentFromLast999` and `Escalation.WarningsBounded`) |
| `Escalation.NextLast` | Cassandra/load_testing_client/main.py:162-166 | the cell after a poll: the full failed total on a warning, otherwise unchanged (no ensures; its meaning is given by `Escalation.WarningRaisesLast`, `Escalation.LastNeverDecreases` and `Escalation.SilentFromLast999`) |
| `Escalation.WarningRaisesLast` | Cassandra/load_testing_client/main.py:162-164 | for a non-negative failed total, a warning strictly raises the stored value |
| `Escalation.LastNeverDecreases` | Cassandra/load_testing_client/main.py:162-166 | over any polls of non-negative totals, the stored value never decreases |
| `Escalation.SilentFromLast999` | Cassandra/load_testing_client/main.py:162-166 | once the stored value is at least 999, no poll warns and the value stays put |
| `Escalation.WarningsBounded` | Cassandra/load_testing_client/main.py:162-166 | from a stored value `last ≥ 0`, a whole run logs at most `999 - last` warnings (none from 999 on) |
| `Escalation.MissedThousandBoundary` | Cassandra/load_testing_client/main.py:162-164 | after polls of 500 and 1600 failed rows, a poll of 2500 does not warn, while the bucket rule does |
| `Escalation.SilentAfterSixteenHundred` | Cassandra/load_testing_client/main.py:162-164 | after those two polls no later poll ever warns |
| `Escalation.BucketWarnsIffNewThousand` | Cassandra/load_testing_client/main.py:162-164 | corrected rule: warns exactly when the failed total reaches the next multiple of 1000 above the one last warned at |
| `Escalation.BucketRecordsThousand` | Cassandra/load_testing_client/main.py:162-164 | corrected rule: a warning raises the kept thousand to the one the failed total lies in |
| `Escalation.BucketAfterSnoc` | Cassandra/load_testing_client/main.py:162-164 | corrected rule: one more poll at the end of a run updates the kept thousand and the warning count as one step does |
| `Escalation.BucketWarnsAtEveryNewThousand` | Cassandra/load_testing_client/main.py:162-164 | corrected rule: in any run, every poll that reaches a thousand above the one kept so far warns |
| `Escalation.BucketWarningsPerThousand` | Cassandra/load_testing_client/main.py:162-164 | corrected rule: over any run the kept thousand never decreases, and there is at most one warning per thousand crossed |
| `Escalation.BucketNeverSilent` | Cassandra/load_testing_client/main.py:162-164 | corrected rule: every further thousand warns |
| `Orchestrator.LoadTest.constructor` | Cassandra/load_testing_client/main.py:143-144 | empty shared dictionary, the cell holds 0 |
| `Orchestrator.LoadTest.LogRowsCounts` | Cassandra/load_testing_client/main.py:146-166 | the two totals are the sums over exactly the `inserted*` and `failed*` keys; the poll warns iff `failed % 1000 > last`, then stores the full failed total, else leaves the cell unchanged |
| `Orchestrator.PollRun` | Cassandra/load_testing_client/main.py:146-166 | a poll of a dictionary in step with the clients' counters reports exactly the sums of their published values: at most the true totals and at least those minus 9 per client; the level and the new cell value follow the escalation rule |
| `Orchestrator.BoundedRunAttempts` | Cassandra/load_testing_client/main.py:129-131 | a bounded run of W clients attempts `rows_count * W` rows in all |
| `Orchestrator.AllFailingRun` | Cassandra/load_testing_client/main.py:112-131 | when every write raises, a bounded run of W clients also fails `rows_count * W` rows |
| `Orchestrator.RunClientsInTurn` | Cassandra/load_testing_client/main.py:169-181 | clients `0 .. W-1` run in turn against one empty dictionary; each ends valid with the counts its outcomes give; the dictionary ends in step with all of them and holds no other key |

## Left out

- Logger setup, log-file creation, `argparse`, JSON config reading and the `"Finished"` line (lines 16-69, 80, 133): I/O and configuration. The text of the progress message (line 161) is left out too; only its level is modelled.
- The Cassandra cluster, session, prepared statement and `session.execute` (lines 82-99, 116): foreign calls. The model keeps only whether the write raised.
- The row-id draw `int(round(random.uniform(...)))` (line 113): floating-point randomness. The id does not affect any counter.
- `ProcessPoolExecutor`, `asyncio.wait` and the polling loop (lines 168-186), and cross-process visibility of the `Manager` dictionary. These are concurrency and timing. `RunClientsInTurn` models one schedule only, clients one after another. `InsertNewRow` touching only its own keys is what makes other interleavings agree per key. The number of polls depends on timing; `Warnings` and `LastAfter` cover any sequence of polls instead.
- `RunNewClient`: the unbounded `while True` loop (lines 126-128) is modelled as the finite prefix of attempts whose outcomes are given. The requirement that enough outcomes are supplied describes the environment, not a limit the source puts on callers.
- `LoadTest.LogRowsCounts`: the order of `dict.items()` is an input (any listing of the snapshot). Every order is proved to give the same totals.
- `Escalation.WarningRaisesLast`: stated for non-negative failed totals only. For a negative total the code could lower the stored value, but a total of counts is never negative.
- `Cassandra/distribution_test/main.py`: a connection, an argument check and a plain insert loop, with no counting logic.
- Python integers are unbounded, as Dafny's are, so nothing wraps around.

## Findings

| source | as written | input that shows it | evidently intended | confidence | as-written member | corrected member |
|---|---|---|---|---|---|---|
| Cassandra/load_testing_client/main.py:162-164 | warns when `failed % 1000 > last` and then stores the full `failed` count, so once the stored value exceeds 998 no poll ever warns again | polls with 500, 1600 and 2500 failed rows: the first two warn; 2500 crosses 2000 and logs at info level, as does every later poll | warn whenever the failed total reaches a multiple of 1000 not reached at the previous warning, keeping that thousand (`failed // 1000 > last_bucket`) | medium, not executed | `Escalation.MissedThousandBoundary` | `Escalation.BucketWarnsIffNewThousand` |

`LoadTest.LogRowsCounts` keeps the rule as the code writes it, because the model follows the code. The corrected rule is `Escalation.BucketWarns` and `Escalation.NextBucket`, proved there on its own.
