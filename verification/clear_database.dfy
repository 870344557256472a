/** The maintenance script that deletes every lost-and-found item through
    the API: the items are fetched once, then deleted in consecutive
    batches of ten while the successes and failures are tallied. */
module ClearDatabase {
  import opened Wrappers

  /** One batch as the script reports it: its 1-based number, the 1-based
      positions of its first and last items, the ids it deletes, and how
      many deletions succeeded and failed. */
  datatype Batch = Batch(number: nat, first: nat, last: nat, ids: seq<int>, deleted: nat, failed: nat)

  /** The end of a run: nothing to delete, or the totals and whether the
      "successfully cleared" message is printed. */
  datatype Report =
    | AlreadyEmpty
    | Completed(total: nat, batches: seq<Batch>, successCount: nat, errorCount: nat, cleared: bool)

  /** `getAllItems`: a failed fetch counts as an empty list. `None` stands
      for any failure (a non-OK status, a network error or bad JSON). */
  function Fetched(response: Option<seq<int>>): (ids: seq<int>)
    ensures response.None? ==> ids == []
    ensures response.Some? ==> ids == response.value
  {
    match response
    case Some(ids) => ids
    case None => []
  }

  function Min(a: int, b: int): int {
    if a <= b then a else b
  }

  /** How many of the positions `lo .. hi - 1` the oracle reports as
      deleted: `results.filter((r) => r.success).length`. */
  function Count(deleted: nat -> bool, lo: nat, hi: nat): nat
    decreases hi
  {
    if hi <= lo then 0 else Count(deleted, lo, hi - 1) + (if deleted(hi - 1) then 1 else 0)
  }

  /** How many of the positions `lo .. hi - 1` the oracle reports as not
      deleted: `results.filter((r) => !r.success).length`. */
  function Failures(deleted: nat -> bool, lo: nat, hi: nat): nat
    decreases hi
  {
    if hi <= lo then 0 else Failures(deleted, lo, hi - 1) + (if deleted(hi - 1) then 0 else 1)
  }

  /** Every position is counted by exactly one of the two filters. */
  lemma {:induction false} CountPartition(deleted: nat -> bool, lo: nat, hi: nat)
    requires lo <= hi
    ensures Count(deleted, lo, hi) + Failures(deleted, lo, hi) == hi - lo
    decreases hi
  {
    if lo < hi {
      CountPartition(deleted, lo, hi - 1);
    }
  }

  /** Counting over adjacent ranges adds up. */
  lemma {:induction false} CountSplit(deleted: nat -> bool, lo: nat, mid: nat, hi: nat)
    requires lo <= mid <= hi
    ensures Count(deleted, lo, hi) == Count(deleted, lo, mid) + Count(deleted, mid, hi)
    ensures Failures(deleted, lo, hi) == Failures(deleted, lo, mid) + Failures(deleted, mid, hi)
    decreases hi
  {
    if mid < hi {
      CountSplit(deleted, lo, mid, hi - 1);
    }
  }

  /** The ids of the batches, one after the other. */
  function Flatten(bs: seq<Batch>): seq<int> {
    if |bs| == 0 then [] else Flatten(bs[..|bs| - 1]) + bs[|bs| - 1].ids
  }

  /** Batch `k` (from 0) of a run over `n` items: number `k + 1`,
      positions `10k + 1` to `min(10k + 10, n)`, those items' ids. */
  predicate WellNumbered(b: Batch, k: nat, items: seq<int>) {
    var n := |items|;
    b.number == k + 1 && b.first == 10 * k + 1 && b.last == Min(10 * k + 10, n)
    && b.first <= b.last && b.ids == items[10 * k..b.last]
  }

  /** The batch the loop builds at position `i`: `items.slice(i, i + 10)`
      numbered `floor(i / 10) + 1`, with its successes and failures
      tallied separately. */
  function MakeBatch(items: seq<int>, deleted: nat -> bool, i: nat): (b: Batch)
    requires i < |items|
    ensures b.number == i / 10 + 1 && b.first == i + 1 && b.last == Min(i + 10, |items|)
    ensures b.ids == items[i..b.last]
    ensures b.deleted == Count(deleted, i, b.last) && b.failed == Failures(deleted, i, b.last)
    ensures b.deleted + b.failed == |b.ids|
  {
    var last := Min(i + 10, |items|);
    CountPartition(deleted, i, last);
    Batch(i / 10 + 1, i + 1, last, items[i..last], Count(deleted, i, last), Failures(deleted, i, last))
  }

  /** Batches `0 .. |bs| - 1` are the ones the loop builds. */
  predicate BatchesSoFar(bs: seq<Batch>, items: seq<int>, deleted: nat -> bool) {
    forall k :: 0 <= k < |bs| ==>
      WellNumbered(bs[k], k, items)
      && bs[k].deleted == Count(deleted, 10 * k, bs[k].last)
      && bs[k].failed == Failures(deleted, 10 * k, bs[k].last)
  }

  /** One more iteration keeps the batches well formed and extends their
      concatenation by the new batch's ids. */
  lemma ExtendBatches(bs: seq<Batch>, items: seq<int>, deleted: nat -> bool)
    requires BatchesSoFar(bs, items, deleted)
    requires 10 * |bs| < |items|
    ensures BatchesSoFar(bs + [MakeBatch(items, deleted, 10 * |bs|)], items, deleted)
    ensures Flatten(bs + [MakeBatch(items, deleted, 10 * |bs|)])
         == Flatten(bs) + MakeBatch(items, deleted, 10 * |bs|).ids
  {
    var b := MakeBatch(items, deleted, 10 * |bs|);
    var bs' := bs + [b];
    assert (10 * |bs|) / 10 == |bs|;
    forall k | 0 <= k < |bs'|
      ensures WellNumbered(bs'[k], k, items)
      ensures bs'[k].deleted == Count(deleted, 10 * k, bs'[k].last)
      ensures bs'[k].failed == Failures(deleted, 10 * k, bs'[k].last)
    {
      if k < |bs| {
        assert bs'[k] == bs[k];
      } else {
        assert bs'[k] == b;
      }
    }
    assert bs'[..|bs|] == bs;
  }

  /** The loop stops after the first multiple of ten that reaches `n`, so
      it runs `ceil(n / 10)` times. */
  lemma BatchCount(b: nat, n: nat)
    requires 10 * b >= n
    requires b > 0 ==> 10 * (b - 1) < n
    ensures b == (n + 9) / 10
  {
  }

  /** What the loop has done once `|bs|` batches have run: the batches so
      far cover the first items in order, and the tallies add them up. */
  predicate Progress(items: seq<int>, deleted: nat -> bool, bs: seq<Batch>, ok: nat, failed: nat) {
    var done := Min(10 * |bs|, |items|);
    && (|bs| > 0 ==> 10 * (|bs| - 1) < |items|)
    && BatchesSoFar(bs, items, deleted)
    && Flatten(bs) == items[..done]
    && ok == Count(deleted, 0, done)
    && failed == Failures(deleted, 0, done)
  }

  /** One iteration of the loop keeps `Progress`. */
  lemma Advance(items: seq<int>, deleted: nat -> bool, bs: seq<Batch>, ok: nat, failed: nat)
    requires Progress(items, deleted, bs, ok, failed) && 10 * |bs| < |items|
    ensures var b := MakeBatch(items, deleted, 10 * |bs|);
      Progress(items, deleted, bs + [b], ok + b.deleted, failed + b.failed)
  {
    var i := 10 * |bs|;
    var b := MakeBatch(items, deleted, i);
    assert Min(i, |items|) == i;
    ExtendBatches(bs, items, deleted);
    assert Flatten(bs + [b]) == items[..b.last] by {
      assert items[..b.last] == items[..i] + b.ids;
    }
    CountSplit(deleted, 0, i, b.last);
    assert Min(10 * |bs + [b]|, |items|) == b.last;
  }

  /** `clearDatabase`. `deleted(p)` is the outcome of deleting the item at
      position `p`: whether the API answered with an OK status. */
  method Clear(response: Option<seq<int>>, deleted: nat -> bool) returns (r: Report)
    ensures r.AlreadyEmpty? <==> |Fetched(response)| == 0
    ensures r.Completed? ==> r.total == |Fetched(response)|
    ensures r.Completed? ==> Flatten(r.batches) == Fetched(response)
    ensures r.Completed? ==> |r.batches| == (r.total + 9) / 10
    ensures r.Completed? ==> forall k :: 0 <= k < |r.batches| ==> WellNumbered(r.batches[k], k, Fetched(response))
    ensures r.Completed? ==> forall k :: 0 <= k < |r.batches| ==>
              r.batches[k].deleted == Count(deleted, 10 * k, r.batches[k].last)
              && r.batches[k].failed == Failures(deleted, 10 * k, r.batches[k].last)
    ensures r.Completed? ==> r.successCount + r.errorCount == r.total
    ensures r.Completed? ==> r.successCount == Count(deleted, 0, r.total)
    ensures r.Completed? ==> r.errorCount == Failures(deleted, 0, r.total)
    ensures r.Completed? ==> (r.cleared <==> r.errorCount == 0)
  {
    var items := Fetched(response);
    var n := |items|;
    if n == 0 {
      return AlreadyEmpty;
    }
    var successCount: nat, errorCount: nat := 0, 0;
    var batches: seq<Batch> := [];
    var i := 0;
    while i < n
      invariant i == 10 * |batches|
      invariant Progress(items, deleted, batches, successCount, errorCount)
    {
      var b := MakeBatch(items, deleted, i);
      Advance(items, deleted, batches, successCount, errorCount);
      batches := batches + [b];
      successCount := successCount + b.deleted;
      errorCount := errorCount + b.failed;
      i := i + 10;
    }
    assert items[..n] == items;
    CountPartition(deleted, 0, n);
    BatchCount(|batches|, n);
    return Completed(n, batches, successCount, errorCount, errorCount == 0);
  }
}
