// Online and batch accounting of one collection run: counters updated as shard results arrive, and the
// artifact computed from the sorted results at the end.
module ResourceMonitor {
  import opened Wrappers
  import Ordering

  datatype EpochResult = EpochResult(resultId: string, shardId: string, epochIndex: int, cycles: int,
    partitionTrades: seq<int>)

  // An epoch of the initial projection; the result is present once it is completed.
  datatype Epoch = Epoch(shardId: string, epochIndex: int, result: Option<EpochResult>)

  // The cumulative trade count a result reports: the sum over its partitions.
  function SumOf(counts: seq<int>): int {
    if counts == [] then 0 else SumOf(counts[..|counts| - 1]) + counts[|counts| - 1]
  }

  function Trades(r: EpochResult): int {
    SumOf(r.partitionTrades)
  }

  type Counts = map<string, int>

  function CountAt(counts: Counts, shardId: string): int {
    if shardId in counts then counts[shardId] else 0
  }

  function Max(a: int, b: int): int {
    if a >= b then a else b
  }

  // ---------- the monitor ----------

  datatype Online = Online(seen: set<string>, previous: Counts, cycles: int, trades: int)

  // `onChildCompleted`
  function Arrive(m: Online, r: EpochResult): Online {
    if r.resultId in m.seen then m
    else Online(
      m.seen + {r.resultId},
      m.previous[r.shardId := Trades(r)],
      m.cycles + r.cycles,
      m.trades + Max(0, Trades(r) - CountAt(m.previous, r.shardId)))
  }

  function ArriveAll(m: Online, arrivals: seq<EpochResult>): Online {
    if arrivals == [] then m
    else Arrive(ArriveAll(m, arrivals[..|arrivals| - 1]), arrivals[|arrivals| - 1])
  }

  function Begin(initial: Counts): Online {
    Online({}, initial, 0, 0)
  }

  class Monitor {
    var completedResults: map<string, EpochResult>
    var previousTradeCountByShard: Counts
    var observedCompletedPartitionCycleCount: int
    var observedTradeCount: int
    var activeChildren: set<string>

    constructor (initial: Counts)
      ensures State() == Begin(initial) && activeChildren == {}
    {
      completedResults, previousTradeCountByShard := map[], initial;
      observedCompletedPartitionCycleCount, observedTradeCount := 0, 0;
      activeChildren := {};
    }

    function State(): Online
      reads this
    {
      Online(completedResults.Keys, previousTradeCountByShard, observedCompletedPartitionCycleCount, observedTradeCount)
    }

    method OnChildStarted(executionId: string)
      modifies this`activeChildren
      ensures activeChildren == old(activeChildren) + {executionId}
    {
      activeChildren := activeChildren + {executionId};
    }

    // A repeated result changes nothing, not even the set of active children.
    method OnChildCompleted(executionId: string, r: EpochResult)
      modifies this
      ensures State() == Arrive(old(State()), r)
      ensures completedResults ==
        if r.resultId in old(completedResults) then old(completedResults) else old(completedResults)[r.resultId := r]
      ensures activeChildren ==
        if r.resultId in old(completedResults) then old(activeChildren) else old(activeChildren) - {executionId}
    {
      if r.resultId in completedResults {
        return;
      }
      completedResults := completedResults[r.resultId := r];
      observedCompletedPartitionCycleCount := observedCompletedPartitionCycleCount + r.cycles;
      var cumulativeTradeCount := 0;
      for index := 0 to |r.partitionTrades|
        invariant cumulativeTradeCount == SumOf(r.partitionTrades[..index])
      {
        assert r.partitionTrades[..index + 1][..index] == r.partitionTrades[..index];
        cumulativeTradeCount := cumulativeTradeCount + r.partitionTrades[index];
      }
      assert r.partitionTrades[..|r.partitionTrades|] == r.partitionTrades;
      var previousTradeCount :=
        if r.shardId in previousTradeCountByShard then previousTradeCountByShard[r.shardId] else 0;
      observedTradeCount := observedTradeCount + Max(0, cumulativeTradeCount - previousTradeCount);
      previousTradeCountByShard := previousTradeCountByShard[r.shardId := cumulativeTradeCount];
      activeChildren := activeChildren - {executionId};
    }

    method OnChildFailed(executionId: string)
      modifies this`activeChildren
      ensures activeChildren == old(activeChildren) - {executionId}
    {
      activeChildren := activeChildren - {executionId};
    }
  }

  // A count that goes down adds nothing, and so do results seen before: what is observed never decreases.
  lemma {:induction false} ObservedNeverDecreases(m: Online, arrivals: seq<EpochResult>)
    ensures m.trades <= ArriveAll(m, arrivals).trades && m.seen <= ArriveAll(m, arrivals).seen
    ensures forall r :: r in arrivals ==> r.resultId in ArriveAll(m, arrivals).seen
  {
    if arrivals != [] {
      var init, last := arrivals[..|arrivals| - 1], arrivals[|arrivals| - 1];
      ObservedNeverDecreases(m, init);
      assert arrivals == init + [last];
    }
  }

  // ---------- the batch artifact ----------

  datatype Batch = Batch(cycles: int, trades: int, previous: Counts)

  datatype BatchError = Regressed(shardId: string) | DuplicateResults

  // The fold over the sorted results; it stops at the first cumulative count that goes down.
  function Tally(initial: Counts, sorted: seq<EpochResult>): Result<Batch, BatchError> {
    if sorted == [] then Ok(Batch(0, 0, initial))
    else
      var b :- Tally(initial, sorted[..|sorted| - 1]);
      var r := sorted[|sorted| - 1];
      var previous := CountAt(b.previous, r.shardId);
      if Trades(r) < previous then Error(Regressed(r.shardId))
      else Ok(Batch(b.cycles + r.cycles, b.trades + (Trades(r) - previous), b.previous[r.shardId := Trades(r)]))
  }

  lemma {:induction false} TallyPrefix(initial: Counts, sorted: seq<EpochResult>, n: nat)
    requires n <= |sorted| && Tally(initial, sorted[..n]).Error?
    ensures Tally(initial, sorted) == Tally(initial, sorted[..n])
  {
    if n == |sorted| {
      assert sorted[..n] == sorted;
    } else {
      assert sorted[..|sorted| - 1][..n] == sorted[..n];
      TallyPrefix(initial, sorted[..|sorted| - 1], n);
    }
  }

  predicate DistinctIds(results: seq<EpochResult>) {
    forall i, j :: 0 <= i < j < |results| ==> results[i].resultId != results[j].resultId
  }

  // The accounting part of `createPaperMarketCollectionResourceEvidenceArtifact`, on results in any order.
  method CreateArtifact(initial: Counts, results: seq<EpochResult>) returns (r: Result<Batch, BatchError>)
    ensures var sorted := SortResults(results);
      && (r.Ok? <==> Tally(initial, sorted).Ok? && DistinctIds(sorted))
      && (r.Ok? ==> r == Tally(initial, sorted))
  {
    var sorted := SortResults(results);
    var previous, cycles, trades := initial, 0, 0;
    for index := 0 to |sorted|
      invariant Tally(initial, sorted[..index]) == Ok(Batch(cycles, trades, previous))
    {
      var result := sorted[index];
      assert sorted[..index + 1][..index] == sorted[..index];
      var before := CountAt(previous, result.shardId);
      if Trades(result) < before {
        TallyPrefix(initial, sorted, index + 1);
        return Error(Regressed(result.shardId));
      }
      previous := previous[result.shardId := Trades(result)];
      cycles, trades := cycles + result.cycles, trades + (Trades(result) - before);
    }
    assert sorted[..|sorted|] == sorted;
    DistinctIdsCount(sorted);
    if |Ids(sorted)| != |sorted| {
      return Error(DuplicateResults);
    }
    return Ok(Batch(cycles, trades, previous));
  }

  function Ids(results: seq<EpochResult>): set<string> {
    set r | r in results :: r.resultId
  }

  lemma IdsOfAppend(init: seq<EpochResult>, last: EpochResult)
    ensures Ids(init + [last]) == Ids(init) + {last.resultId}
  {
    assert forall r :: r in init + [last] <==> r in init || r == last;
  }

  // `new Set(ids).size === length`
  lemma {:induction false} DistinctIdsCount(results: seq<EpochResult>)
    ensures |Ids(results)| <= |results| && (|Ids(results)| == |results| <==> DistinctIds(results))
  {
    if results != [] {
      var init, last := results[..|results| - 1], results[|results| - 1];
      DistinctIdsCount(init);
      assert results == init + [last];
      IdsOfAppend(init, last);
      FreshIdIff(init, last);
      if last.resultId in Ids(init) {
        assert Ids(results) == Ids(init);
      }
    }
  }

  lemma FreshIdIff(init: seq<EpochResult>, last: EpochResult)
    ensures DistinctIds(init + [last]) <==> DistinctIds(init) && last.resultId !in Ids(init)
  {
    var all := init + [last];
    if last.resultId in Ids(init) {
      var r :| r in init && r.resultId == last.resultId;
      var i :| 0 <= i < |init| && init[i] == r;
      assert all[i].resultId == all[|init|].resultId;
    } else {
      assert forall i :: 0 <= i < |init| ==> init[i] in init && init[i].resultId in Ids(init);
    }
    if DistinctIds(all) {
      forall i, j | 0 <= i < j < |init| ensures init[i].resultId != init[j].resultId {
        assert all[i].resultId != all[j].resultId;
      }
    }
  }

  // ---------- one list, both ways of counting ----------

  // The results the monitor keeps: the first one with each id, in order of arrival.
  function Kept(arrivals: seq<EpochResult>): seq<EpochResult> {
    if arrivals == [] then []
    else
      var before := Kept(arrivals[..|arrivals| - 1]);
      var r := arrivals[|arrivals| - 1];
      if r.resultId in Ids(before) then before else before + [r]
  }

  function Cycles(results: seq<EpochResult>): int {
    if results == [] then 0 else Cycles(results[..|results| - 1]) + results[|results| - 1].cycles
  }

  // The last reported count of every shard.
  function Last(initial: Counts, results: seq<EpochResult>): Counts {
    if results == [] then initial
    else
      var r := results[|results| - 1];
      Last(initial, results[..|results| - 1])[r.shardId := Trades(r)]
  }

  function Gains(initial: Counts, results: seq<EpochResult>): int {
    if results == [] then 0
    else
      var init, r := results[..|results| - 1], results[|results| - 1];
      Gains(initial, init) + Max(0, Trades(r) - CountAt(Last(initial, init), r.shardId))
  }

  // What the monitor shows after results with distinct ids.
  function Shown(initial: Counts, kept: seq<EpochResult>): Online {
    Online(Ids(kept), Last(initial, kept), Cycles(kept), Gains(initial, kept))
  }

  lemma FreshArrival(initial: Counts, kept: seq<EpochResult>, r: EpochResult)
    requires r.resultId !in Ids(kept)
    ensures Arrive(Shown(initial, kept), r) == Shown(initial, kept + [r])
  {
    IdsOfAppend(kept, r);
    assert (kept + [r])[..|kept|] == kept;
  }

  lemma {:induction false} MonitorCountsKept(initial: Counts, arrivals: seq<EpochResult>)
    ensures ArriveAll(Begin(initial), arrivals) == Shown(initial, Kept(arrivals))
    ensures DistinctIds(Kept(arrivals))
  {
    if arrivals != [] {
      var init, r := arrivals[..|arrivals| - 1], arrivals[|arrivals| - 1];
      var before := Kept(init);
      MonitorCountsKept(initial, init);
      FreshIdIff(before, r);
      if r.resultId !in Ids(before) {
        FreshArrival(initial, before, r);
      }
    }
  }

  // Cumulative counts never go down within a shard, starting from the initial one.
  predicate NonDecreasing(initial: Counts, results: seq<EpochResult>) {
    && (forall j :: 0 <= j < |results| ==> CountAt(initial, results[j].shardId) <= Trades(results[j]))
    && (forall i, j :: 0 <= i < j < |results| && results[i].shardId == results[j].shardId ==>
         Trades(results[i]) <= Trades(results[j]))
  }

  // Result i is the last one of its shard.
  predicate LastOfShard(results: seq<EpochResult>, shardId: string, i: nat) {
    && i < |results| && results[i].shardId == shardId
    && (forall k :: i < k < |results| ==> results[k].shardId != shardId)
  }

  predicate NoneOfShard(results: seq<EpochResult>, shardId: string) {
    forall i :: 0 <= i < |results| ==> results[i].shardId != shardId
  }

  lemma NoneOfLonger(init: seq<EpochResult>, r: EpochResult, shardId: string)
    ensures NoneOfShard(init + [r], shardId) <==> NoneOfShard(init, shardId) && r.shardId != shardId
  {
    assert (init + [r])[|init|] == r;
    assert forall i :: 0 <= i < |init| ==> (init + [r])[i] == init[i];
  }

  lemma LastOfLonger(init: seq<EpochResult>, r: EpochResult, shardId: string, i: nat)
    requires r.shardId != shardId && LastOfShard(init, shardId, i)
    ensures LastOfShard(init + [r], shardId, i) && (init + [r])[i] == init[i]
  {
  }

  // The count remembered for a shard is the initial one or that of its last result.
  lemma {:induction false} LastIsInitialOrEarlier(initial: Counts, results: seq<EpochResult>, shardId: string)
    ensures
      if NoneOfShard(results, shardId)
      then CountAt(Last(initial, results), shardId) == CountAt(initial, shardId)
      else exists i: nat ::
        LastOfShard(results, shardId, i) && CountAt(Last(initial, results), shardId) == Trades(results[i])
  {
    if results != [] {
      var init, r := results[..|results| - 1], results[|results| - 1];
      assert results == init + [r];
      LastIsInitialOrEarlier(initial, init, shardId);
      NoneOfLonger(init, r, shardId);
      if r.shardId == shardId {
        assert LastOfShard(results, shardId, |init|);
      } else if !NoneOfShard(init, shardId) {
        var i: nat :| LastOfShard(init, shardId, i) && CountAt(Last(initial, init), shardId) == Trades(init[i]);
        LastOfLonger(init, r, shardId, i);
      }
    }
  }

  // The batch fold succeeds exactly on non-decreasing counts, and then it counts like the monitor.
  lemma {:induction false} TallySucceedsIff(initial: Counts, results: seq<EpochResult>)
    ensures Tally(initial, results).Ok? <==> NonDecreasing(initial, results)
    ensures Tally(initial, results).Ok? ==>
      Tally(initial, results).value == Batch(Cycles(results), Gains(initial, results), Last(initial, results))
  {
    if results != [] {
      var init, r := results[..|results| - 1], results[|results| - 1];
      TallySucceedsIff(initial, init);
      NonDecreasingStep(initial, init, r);
      assert results == init + [r];
    }
  }

  lemma NonDecreasingStep(initial: Counts, init: seq<EpochResult>, r: EpochResult)
    ensures NonDecreasing(initial, init + [r]) <==>
      NonDecreasing(initial, init) && CountAt(Last(initial, init), r.shardId) <= Trades(r)
  {
    var all := init + [r];
    LastIsInitialOrEarlier(initial, init, r.shardId);
    if NonDecreasing(initial, all) {
      forall j | 0 <= j < |init| ensures CountAt(initial, init[j].shardId) <= Trades(init[j]) {
        assert all[j] == init[j];
      }
      forall i, j | 0 <= i < j < |init| && init[i].shardId == init[j].shardId
        ensures Trades(init[i]) <= Trades(init[j])
      {
        assert all[i] == init[i] && all[j] == init[j];
      }
      assert all[|init|] == r;
      assert forall i :: 0 <= i < |init| && init[i].shardId == r.shardId ==> Trades(all[i]) <= Trades(all[|init|]);
    }
    if NonDecreasing(initial, init) && CountAt(Last(initial, init), r.shardId) <= Trades(r) {
      LastIsGreatest(initial, init, r.shardId);
    }
  }

  lemma LastIsGreatest(initial: Counts, results: seq<EpochResult>, shardId: string)
    requires NonDecreasing(initial, results)
    ensures CountAt(initial, shardId) <= CountAt(Last(initial, results), shardId)
    ensures forall i :: 0 <= i < |results| && results[i].shardId == shardId ==>
      Trades(results[i]) <= CountAt(Last(initial, results), shardId)
  {
    LastIsInitialOrEarlier(initial, results, shardId);
  }

  // ---------- telescoping ----------

  function Gain(initial: Counts, final: Counts, shardId: string): int {
    CountAt(final, shardId) - CountAt(initial, shardId)
  }

  ghost function TotalGain(initial: Counts, final: Counts, shards: set<string>): int {
    if shards == {} then 0
    else
      var s :| s in shards;
      Gain(initial, final, s) + TotalGain(initial, final, shards - {s})
  }

  lemma {:induction false} TotalGainRemove(initial: Counts, final: Counts, shards: set<string>, s: string)
    requires s in shards
    ensures TotalGain(initial, final, shards) == Gain(initial, final, s) + TotalGain(initial, final, shards - {s})
    decreases shards
  {
    var pick :| pick in shards && TotalGain(initial, final, shards) ==
      Gain(initial, final, pick) + TotalGain(initial, final, shards - {pick});
    if pick != s {
      TotalGainRemove(initial, final, shards - {pick}, s);
      TotalGainRemove(initial, final, shards - {s}, pick);
      assert shards - {pick} - {s} == shards - {s} - {pick};
    }
  }

  lemma {:induction false} TotalGainDependsOnCounts(initial: Counts, a: Counts, b: Counts, shards: set<string>)
    requires forall s :: s in shards ==> CountAt(a, s) == CountAt(b, s)
    ensures TotalGain(initial, a, shards) == TotalGain(initial, b, shards)
    decreases shards
  {
    if shards != {} {
      var s :| s in shards;
      TotalGainRemove(initial, a, shards, s);
      TotalGainRemove(initial, b, shards, s);
      TotalGainDependsOnCounts(initial, a, b, shards - {s});
    }
  }

  lemma {:induction false} NoGain(initial: Counts, shards: set<string>)
    ensures TotalGain(initial, initial, shards) == 0
    decreases shards
  {
    if shards != {} {
      var s :| s in shards;
      TotalGainRemove(initial, initial, shards, s);
      NoGain(initial, shards - {s});
    }
  }

  function Shards(results: seq<EpochResult>): set<string> {
    set r | r in results :: r.shardId
  }

  lemma ShardsOfLonger(init: seq<EpochResult>, r: EpochResult)
    ensures Shards(init) <= Shards(init + [r]) && r.shardId in Shards(init + [r])
  {
    assert forall x :: x in init ==> x in init + [r];
    assert r in init + [r];
  }

  // The trade total is the sum over the shards of last minus initial count.
  lemma {:induction false} GainsTelescope(initial: Counts, results: seq<EpochResult>, shards: set<string>)
    requires NonDecreasing(initial, results) && Shards(results) <= shards
    ensures Gains(initial, results) == TotalGain(initial, Last(initial, results), shards)
    decreases |results|
  {
    if results == [] {
      NoGain(initial, shards);
    } else {
      var init, r := results[..|results| - 1], results[|results| - 1];
      assert results == init + [r];
      NonDecreasingStep(initial, init, r);
      ShardsOfLonger(init, r);
      GainsTelescope(initial, init, shards);
      UpdateGains(initial, Last(initial, init), r.shardId, Trades(r), shards);
    }
  }

  lemma UpdateGains(initial: Counts, before: Counts, s: string, count: int, shards: set<string>)
    requires s in shards
    ensures TotalGain(initial, before[s := count], shards) ==
      TotalGain(initial, before, shards) + count - CountAt(before, s)
  {
    TotalGainRemove(initial, before, shards, s);
    TotalGainRemove(initial, before[s := count], shards, s);
    TotalGainDependsOnCounts(initial, before, before[s := count], shards - {s});
  }

  // ---------- arrival order against sorted order ----------

  // Within a shard, results come in epoch order.
  predicate EpochOrder(results: seq<EpochResult>) {
    forall i, j :: 0 <= i < j < |results| && results[i].shardId == results[j].shardId ==>
      results[i].epochIndex < results[j].epochIndex
  }

  predicate EpochsAscend(results: seq<EpochResult>) {
    forall i, j :: 0 <= i < j < |results| ==> results[i].epochIndex <= results[j].epochIndex
  }

  function SortKey(r: EpochResult): seq<int> {
    [r.epochIndex] + Ordering.Codes(r.shardId)
  }

  // The sort by epoch, then by shard.
  function SortResults(results: seq<EpochResult>): seq<EpochResult> {
    Ordering.Sort(SortKey, results)
  }

  lemma SortResultsAscends(results: seq<EpochResult>)
    ensures EpochsAscend(SortResults(results)) && multiset(SortResults(results)) == multiset(results)
    ensures |SortResults(results)| == |results| && forall r :: r in SortResults(results) <==> r in results
  {
    var sorted := SortResults(results);
    Ordering.SortKeepsAll(SortKey, results);
    Ordering.SortMembers(SortKey, results);
    Ordering.SortCommutes(SortKey, results);
    Ordering.SortKeysAscends(Ordering.Keys(SortKey, results));
    var keys := Ordering.Keys(SortKey, sorted);
    forall i, j | 0 <= i < j < |sorted| ensures sorted[i].epochIndex <= sorted[j].epochIndex {
      assert !Ordering.Less(keys[j], keys[i]);
      assert keys[i][0] == sorted[i].epochIndex && keys[j][0] == sorted[j].epochIndex;
    }
  }

  // The sorted list keeps the order within each shard.
  lemma SortedOrderWithinShard(kept: seq<EpochResult>, sorted: seq<EpochResult>, i: nat, j: nat)
    requires EpochOrder(kept) && EpochsAscend(sorted) && (forall r :: r in sorted ==> r in kept)
    requires i < j < |sorted| && sorted[i].shardId == sorted[j].shardId
    ensures sorted[i] == sorted[j] || exists a, b :: 0 <= a < b < |kept| && kept[a] == sorted[i] && kept[b] == sorted[j]
  {
    assert sorted[i] in kept && sorted[j] in kept;
    var a :| 0 <= a < |kept| && kept[a] == sorted[i];
    var b :| 0 <= b < |kept| && kept[b] == sorted[j];
    assert sorted[i].epochIndex <= sorted[j].epochIndex;
    assert a <= b;
  }

  lemma SameOrderSameCounts(initial: Counts, kept: seq<EpochResult>, sorted: seq<EpochResult>)
    requires EpochOrder(kept) && EpochsAscend(sorted) && forall r :: r in sorted <==> r in kept
    ensures NonDecreasing(initial, kept) ==> NonDecreasing(initial, sorted)
  {
    if NonDecreasing(initial, kept) {
      forall j | 0 <= j < |sorted| ensures CountAt(initial, sorted[j].shardId) <= Trades(sorted[j]) {
        assert sorted[j] in kept;
      }
      forall i, j | 0 <= i < j < |sorted| && sorted[i].shardId == sorted[j].shardId
        ensures Trades(sorted[i]) <= Trades(sorted[j])
      {
        SortedOrderWithinShard(kept, sorted, i, j);
      }
    }
  }

  lemma SortedSameCounts(initial: Counts, kept: seq<EpochResult>, sorted: seq<EpochResult>)
    requires EpochOrder(kept) && EpochsAscend(sorted) && forall r :: r in sorted <==> r in kept
    ensures NonDecreasing(initial, sorted) ==> NonDecreasing(initial, kept)
  {
    if NonDecreasing(initial, sorted) {
      forall j | 0 <= j < |kept| ensures CountAt(initial, kept[j].shardId) <= Trades(kept[j]) {
        assert kept[j] in sorted;
      }
      forall i, j | 0 <= i < j < |kept| && kept[i].shardId == kept[j].shardId
        ensures Trades(kept[i]) <= Trades(kept[j])
      {
        assert kept[i] in sorted && kept[j] in sorted;
        var a :| 0 <= a < |sorted| && sorted[a] == kept[i];
        var b :| 0 <= b < |sorted| && sorted[b] == kept[j];
        assert kept[i].epochIndex < kept[j].epochIndex;
        assert a <= b;
      }
    }
  }

  // Both orders end with the same last count of every shard.
  lemma LastCountsAgree(initial: Counts, kept: seq<EpochResult>, sorted: seq<EpochResult>, shardId: string)
    requires EpochOrder(kept) && EpochsAscend(sorted) && forall r :: r in sorted <==> r in kept
    requires NonDecreasing(initial, kept) && NonDecreasing(initial, sorted)
    ensures CountAt(Last(initial, kept), shardId) == CountAt(Last(initial, sorted), shardId)
  {
    LastIsGreatest(initial, kept, shardId);
    LastIsGreatest(initial, sorted, shardId);
    LastIsInitialOrEarlier(initial, kept, shardId);
    LastIsInitialOrEarlier(initial, sorted, shardId);
    LastCountIsReached(initial, kept, sorted, shardId);
    LastCountIsReached(initial, sorted, kept, shardId);
  }

  lemma LastCountIsReached(initial: Counts, a: seq<EpochResult>, b: seq<EpochResult>, shardId: string)
    requires NonDecreasing(initial, b) && forall r :: r in a ==> r in b
    ensures CountAt(Last(initial, a), shardId) <= CountAt(Last(initial, b), shardId)
  {
    LastIsGreatest(initial, b, shardId);
    LastIsInitialOrEarlier(initial, a, shardId);
    if i: nat :| LastOfShard(a, shardId, i) && CountAt(Last(initial, a), shardId) == Trades(a[i]) {
      assert a[i] in b;
      var j :| 0 <= j < |b| && b[j] == a[i];
    }
  }

  lemma {:induction false} CyclesOfPermutation(a: seq<EpochResult>, b: seq<EpochResult>)
    requires multiset(a) == multiset(b)
    ensures Cycles(a) == Cycles(b)
    decreases |a|
  {
    assert |multiset(a)| == |a| && |multiset(b)| == |b|;
    if a != [] {
      var init, r := a[..|a| - 1], a[|a| - 1];
      assert a == init + [r];
      assert r in multiset(b);
      var i :| 0 <= i < |b| && b[i] == r;
      WithoutOne(b, i);
      CyclesOfPermutation(init, b[..i] + b[i + 1..]);
      CyclesWithout(b, i);
    }
  }

  lemma WithoutOne(results: seq<EpochResult>, i: nat)
    requires i < |results|
    ensures multiset(results[..i] + results[i + 1..]) == multiset(results) - multiset{results[i]}
  {
    assert results == results[..i] + [results[i]] + results[i + 1..];
  }

  lemma {:induction false} CyclesWithout(results: seq<EpochResult>, i: nat)
    requires i < |results|
    ensures Cycles(results) == Cycles(results[..i] + results[i + 1..]) + results[i].cycles
  {
    var n := |results| - 1;
    var rest := results[..i] + results[i + 1..];
    if i == n {
      assert rest == results[..n];
    } else {
      CyclesWithout(results[..n], i);
      assert rest[..|rest| - 1] == results[..n][..i] + results[..n][i + 1..];
      assert rest[|rest| - 1] == results[n];
    }
  }

  // Online and batch accounting agree: for any interleaving of shards in which the distinct results of
  // each shard arrive in epoch order, the artifact is created exactly when no cumulative count goes
  // down, and then both report the same cycles and trades, and the trades telescope.
  lemma OnlineAgreesWithBatch(initial: Counts, arrivals: seq<EpochResult>)
    requires EpochOrder(Kept(arrivals))
    ensures var online := ArriveAll(Begin(initial), arrivals);
      var batch := Tally(initial, SortResults(Kept(arrivals)));
      && (batch.Ok? <==> NonDecreasing(initial, Kept(arrivals)))
      && (batch.Ok? ==>
           && online.cycles == batch.value.cycles && online.trades == batch.value.trades
           && online.trades == TotalGain(initial, online.previous, Shards(Kept(arrivals))))
  {
    var kept := Kept(arrivals);
    var sorted := SortResults(kept);
    MonitorCountsKept(initial, arrivals);
    SortResultsAscends(kept);
    SameOrderSameCounts(initial, kept, sorted);
    SortedSameCounts(initial, kept, sorted);
    TallySucceedsIff(initial, sorted);
    CyclesOfPermutation(kept, sorted);
    if NonDecreasing(initial, kept) {
      var shards := Shards(kept);
      assert Shards(sorted) == shards;
      GainsTelescope(initial, kept, shards);
      GainsTelescope(initial, sorted, shards);
      forall s | s in shards ensures CountAt(Last(initial, kept), s) == CountAt(Last(initial, sorted), s) {
        LastCountsAgree(initial, kept, sorted, s);
      }
      TotalGainDependsOnCounts(initial, Last(initial, kept), Last(initial, sorted), shards);
    }
  }

  // ---------- the initial counts ----------

  // The batch starts from the last completed epoch listed for each shard.
  function LastListed(epochs: seq<Epoch>): Counts {
    if epochs == [] then map[]
    else
      var before := LastListed(epochs[..|epochs| - 1]);
      var e := epochs[|epochs| - 1];
      if e.result.None? then before else before[e.shardId := Trades(e.result.value)]
  }

  datatype Latest = Latest(epochIndex: int, trades: int)

  // `latestTradeCounts`: the monitor starts from the completed epoch with the highest index.
  function LatestByShard(epochs: seq<Epoch>): map<string, Latest> {
    if epochs == [] then map[]
    else
      var before := LatestByShard(epochs[..|epochs| - 1]);
      var e := epochs[|epochs| - 1];
      if e.result.None? || (e.shardId in before && before[e.shardId].epochIndex > e.epochIndex) then before
      else before[e.shardId := Latest(e.epochIndex, Trades(e.result.value))]
  }

  function LatestCounts(epochs: seq<Epoch>): Counts {
    var latest := LatestByShard(epochs);
    map shardId | shardId in latest :: latest[shardId].trades
  }

  predicate ListedInOrder(epochs: seq<Epoch>) {
    forall i, j :: 0 <= i < j < |epochs| ==> epochs[i].epochIndex <= epochs[j].epochIndex
  }

  predicate HasIndex(epochs: seq<Epoch>, index: int) {
    exists i :: 0 <= i < |epochs| && epochs[i].epochIndex == index
  }

  lemma {:induction false} LatestIsListed(epochs: seq<Epoch>)
    ensures forall s :: s in LatestByShard(epochs) ==> HasIndex(epochs, LatestByShard(epochs)[s].epochIndex)
  {
    if epochs != [] {
      var init, e := epochs[..|epochs| - 1], epochs[|epochs| - 1];
      LatestIsListed(init);
      assert HasIndex(epochs, e.epochIndex);
      forall index | HasIndex(init, index) ensures HasIndex(epochs, index) {
        var i :| 0 <= i < |init| && init[i].epochIndex == index;
        assert epochs[i] == init[i];
      }
    }
  }

  lemma LastIsHighest(epochs: seq<Epoch>, index: int)
    requires ListedInOrder(epochs) && epochs != [] && HasIndex(epochs, index)
    ensures index <= epochs[|epochs| - 1].epochIndex
  {
    var i :| 0 <= i < |epochs| && epochs[i].epochIndex == index;
    assert i < |epochs| - 1 ==> epochs[i].epochIndex <= epochs[|epochs| - 1].epochIndex;
  }

  // A projection lists its epochs by index, and then both starting points are the same.
  lemma {:induction false} InitialCountsAgree(epochs: seq<Epoch>)
    requires ListedInOrder(epochs)
    ensures LatestCounts(epochs) == LastListed(epochs)
  {
    if epochs != [] {
      var init, e := epochs[..|epochs| - 1], epochs[|epochs| - 1];
      InitialCountsAgree(init);
      LatestIsListed(init);
      if e.shardId in LatestByShard(init) {
        var index := LatestByShard(init)[e.shardId].epochIndex;
        var i :| 0 <= i < |init| && init[i].epochIndex == index;
        assert epochs[i] == init[i];
        LastIsHighest(epochs, index);
      }
    }
  }

  // The order in which the ledger projects its epochs.
  function EpochKey(e: Epoch): seq<int> {
    [e.epochIndex] + Ordering.Codes(e.shardId)
  }

  // The ledger sorts its epochs by index and shard, so the condition above always holds of a projection.
  lemma {:induction false} ProjectionsAgree(states: seq<Epoch>)
    ensures var epochs := Ordering.Sort(EpochKey, states);
      ListedInOrder(epochs) && LatestCounts(epochs) == LastListed(epochs)
  {
    var epochs := Ordering.Sort(EpochKey, states);
    Ordering.SortCommutes(EpochKey, states);
    Ordering.SortKeysAscends(Ordering.Keys(EpochKey, states));
    var keys := Ordering.Keys(EpochKey, epochs);
    forall i, j | 0 <= i < j < |epochs| ensures epochs[i].epochIndex <= epochs[j].epochIndex {
      assert !Ordering.Less(keys[j], keys[i]);
      assert keys[i][0] == epochs[i].epochIndex && keys[j][0] == epochs[j].epochIndex;
    }
    InitialCountsAgree(epochs);
  }
}
