/**
 The log-severity rule of `log_rows_counts`: a poll logs a warning exactly
 when the failed total modulo 1000 exceeds the value kept in
 `last_failed_rows_count[0]`, and a warning stores the full failed total
 there. Python's `%` with a positive divisor agrees with Dafny's.
 */
module Escalation {

  /** The modulus the failed total is reduced by before the comparison. */
  const Period: int := 1000

  /** `failed_rows_count % 1000 > last_failed_rows_count[0]`. */
  predicate Warns(last: int, failed: int)
  {
    failed % Period > last
  }

  /** The cell after a poll: the full failed total on a warning, else unchanged. */
  function NextLast(last: int, failed: int): int
  {
    if Warns(last, failed) then failed else last
  }

  /** The number of warnings over successive polls with these failed totals. */
  function Warnings(last: int, polls: seq<int>): nat
    decreases |polls|
  {
    if polls == [] then 0
    else (if Warns(last, polls[0]) then 1 else 0) + Warnings(NextLast(last, polls[0]), polls[1..])
  }

  /** The cell after successive polls. */
  function LastAfter(last: int, polls: seq<int>): int
    decreases |polls|
  {
    if polls == [] then last else LastAfter(NextLast(last, polls[0]), polls[1..])
  }

  ghost predicate NonNegative(polls: seq<int>)
  {
    forall i :: 0 <= i < |polls| ==> polls[i] >= 0
  }

  /** A warning strictly raises the stored value (failed totals are sums of counts, never negative). */
  lemma WarningRaisesLast(last: int, failed: nat)
    requires Warns(last, failed)
    ensures NextLast(last, failed) > last
  {
    assert failed % Period <= failed;
  }

  /** The stored value never goes down. */
  lemma {:induction false} LastNeverDecreases(last: int, polls: seq<int>)
    requires NonNegative(polls)
    ensures LastAfter(last, polls) >= last
    decreases |polls|
  {
    if polls != [] {
      if Warns(last, polls[0]) { WarningRaisesLast(last, polls[0]); }
      LastNeverDecreases(NextLast(last, polls[0]), polls[1..]);
    }
  }

  /** Once the stored value reaches 999 no poll warns again: a remainder
      modulo 1000 is at most 999. */
  lemma {:induction false} SilentFromLast999(last: int, polls: seq<int>)
    requires last >= Period - 1
    ensures Warnings(last, polls) == 0 && LastAfter(last, polls) == last
    decreases |polls|
  {
    if polls != [] {
      assert !Warns(last, polls[0]);
      SilentFromLast999(last, polls[1..]);
    }
  }

  /** A whole run, however long, logs at most 999 - last warnings. */
  lemma {:induction false} WarningsBounded(last: int, polls: seq<int>)
    requires 0 <= last && NonNegative(polls)
    ensures Warnings(last, polls) <= if last >= Period - 1 then 0 else Period - 1 - last
    decreases |polls|
  {
    if last >= Period - 1 {
      SilentFromLast999(last, polls);
    } else if polls != [] {
      var next := NextLast(last, polls[0]);
      if Warns(last, polls[0]) { WarningRaisesLast(last, polls[0]); }
      WarningsBounded(next, polls[1..]);
    }
  }

  /** The code misses a crossed thousand: after polls of 500 and 1600 failed
      rows, a poll of 2500 failed rows crosses 2000 and does not warn, while
      the bucket rule below does. */
  lemma MissedThousandBoundary()
    ensures LastAfter(0, [500, 1600]) == 1600
    ensures !Warns(1600, 2500)
    ensures BucketAfter(0, [500, 1600]) == 1 && BucketWarns(1, 2500)
  {
    assert [500, 1600][1..] == [1600];
    assert [500, 1600][1..][1..] == [];
  }

  /** The code falls silent for good: once such a run has stored 1600, no
      later poll warns, however many thousands more rows fail. */
  lemma SilentAfterSixteenHundred(polls: seq<int>)
    ensures Warnings(LastAfter(0, [500, 1600]), polls) == 0
  {
    MissedThousandBoundary();
    SilentFromLast999(1600, polls);
  }

  /** Corrected rule: warn when the failed total reaches a thousand not
      reached at the previous warning; keep that thousand. */
  predicate BucketWarns(lastBucket: nat, failed: nat)
  {
    failed / Period > lastBucket
  }

  function NextBucket(lastBucket: nat, failed: nat): nat
  {
    if BucketWarns(lastBucket, failed) then failed / Period else lastBucket
  }

  function BucketAfter(lastBucket: nat, polls: seq<nat>): nat
    decreases |polls|
  {
    if polls == [] then lastBucket else BucketAfter(NextBucket(lastBucket, polls[0]), polls[1..])
  }

  /** The corrected rule warns exactly when the failed total has crossed the
      next multiple of 1000 above the one last warned at. */
  lemma BucketWarnsIffNewThousand(lastBucket: nat, failed: nat)
    ensures BucketWarns(lastBucket, failed) <==> (lastBucket + 1) * Period <= failed
  {
    var q := failed / Period;
    assert failed == q * Period + failed % Period;
    if q > lastBucket {
      assert (lastBucket + 1) * Period <= q * Period;
    } else {
      assert q * Period <= lastBucket * Period;
    }
  }

  /** After a warning the kept thousand is the one the failed total is in. */
  lemma BucketRecordsThousand(lastBucket: nat, failed: nat)
    requires BucketWarns(lastBucket, failed)
    ensures NextBucket(lastBucket, failed) > lastBucket
    ensures NextBucket(lastBucket, failed) * Period <= failed < (NextBucket(lastBucket, failed) + 1) * Period
  {
  }

  /** The number of warnings the corrected rule logs over successive polls. */
  function BucketWarnings(lastBucket: nat, polls: seq<nat>): nat
    decreases |polls|
  {
    if polls == [] then 0
    else (if BucketWarns(lastBucket, polls[0]) then 1 else 0) + BucketWarnings(NextBucket(lastBucket, polls[0]), polls[1..])
  }

  /** One more poll at the end of a run. */
  lemma {:induction false} BucketAfterSnoc(lastBucket: nat, polls: seq<nat>, failed: nat)
    ensures BucketAfter(lastBucket, polls + [failed]) == NextBucket(BucketAfter(lastBucket, polls), failed)
    ensures BucketWarnings(lastBucket, polls + [failed])
         == BucketWarnings(lastBucket, polls) + (if BucketWarns(BucketAfter(lastBucket, polls), failed) then 1 else 0)
    decreases |polls|
  {
    if polls == [] {
      assert [failed][1..] == [];
    } else {
      assert (polls + [failed])[1..] == polls[1..] + [failed];
      BucketAfterSnoc(NextBucket(lastBucket, polls[0]), polls[1..], failed);
    }
  }

  /** Under the corrected rule, in any run, every poll that reaches a
      thousand above the one kept so far warns. */
  lemma BucketWarnsAtEveryNewThousand(lastBucket: nat, polls: seq<nat>, i: nat)
    requires i < |polls|
    requires polls[i] >= (BucketAfter(lastBucket, polls[..i]) + 1) * Period
    ensures BucketWarnings(lastBucket, polls[..i + 1]) == BucketWarnings(lastBucket, polls[..i]) + 1
  {
    assert polls[..i + 1] == polls[..i] + [polls[i]];
    BucketAfterSnoc(lastBucket, polls[..i], polls[i]);
    BucketWarnsIffNewThousand(BucketAfter(lastBucket, polls[..i]), polls[i]);
  }

  /** The corrected rule does not flood the log: over any run it warns at
      most once per thousand crossed, and the kept thousand never goes down. */
  lemma {:induction false} BucketWarningsPerThousand(lastBucket: nat, polls: seq<nat>)
    ensures BucketAfter(lastBucket, polls) >= lastBucket
    ensures BucketWarnings(lastBucket, polls) <= BucketAfter(lastBucket, polls) - lastBucket
    decreases |polls|
  {
    if polls != [] {
      BucketWarningsPerThousand(NextBucket(lastBucket, polls[0]), polls[1..]);
    }
  }

  /** The corrected rule never falls silent: every further thousand warns. */
  lemma BucketNeverSilent(lastBucket: nat)
    ensures BucketWarns(lastBucket, (lastBucket + 1) * Period)
  {
    BucketWarnsIffNewThousand(lastBucket, (lastBucket + 1) * Period);
  }
}
