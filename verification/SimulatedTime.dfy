// From wall-clock to simulated time: a sorted sample lookup and a sequential fold over the same events.
module SimulatedTime {
  import opened Ordering

  datatype Event = TimeAdvanced(occurredAt: int, next: int) | OtherEvent(occurredAt: int)

  datatype Sample = Sample(wallClock: int, simulatedTime: int)

  // ---------- the fold ----------

  // The simulated time after all the events.
  function Fold(events: seq<Event>, initial: int): int {
    if events == [] then initial
    else
      var last := events[|events| - 1];
      if last.TimeAdvanced? then last.next else Fold(events[..|events| - 1], initial)
  }

  // `normalizeWorldEventsToSimulatedTime`: every event gets the simulated time in force after it.
  method Normalize(events: seq<Event>, initial: int) returns (times: seq<int>)
    ensures |times| == |events|
    ensures forall i :: 0 <= i < |events| ==> times[i] == Fold(events[..i + 1], initial)
  {
    var simulatedTime := initial;
    times := [];
    for index := 0 to |events|
      invariant simulatedTime == Fold(events[..index], initial)
      invariant |times| == index && forall i :: 0 <= i < index ==> times[i] == Fold(events[..i + 1], initial)
    {
      assert events[..index + 1][..index] == events[..index];
      if events[index].TimeAdvanced? {
        simulatedTime := events[index].next;
      }
      times := times + [simulatedTime];
    }
  }

  // ---------- the mapper ----------

  // The samples of the time-advance events, in event order.
  function Samples(events: seq<Event>): seq<Sample> {
    if events == [] then []
    else
      var last := events[|events| - 1];
      Samples(events[..|events| - 1]) + (if last.TimeAdvanced? then [Sample(last.occurredAt, last.next)] else [])
  }

  function WallClockOf(s: Sample): seq<int> {
    [s.wallClock]
  }

  // The loop of the mapper: take samples until one lies after the wall clock.
  function Lookup(samples: seq<Sample>, initial: int, wallClock: int): int
    decreases |samples|
  {
    if samples == [] || samples[0].wallClock > wallClock then initial
    else Lookup(samples[1..], samples[0].simulatedTime, wallClock)
  }

  // The function returned by `createWallClockToSimulatedTimeMapper`.
  function Mapped(events: seq<Event>, initial: int, wallClock: int): int {
    Lookup(Sort(WallClockOf, Samples(events)), initial, wallClock)
  }

  method MapTime(samples: seq<Sample>, initial: int, wallClock: int) returns (simulatedTime: int)
    ensures simulatedTime == Lookup(samples, initial, wallClock)
  {
    simulatedTime := initial;
    for index := 0 to |samples|
      invariant Lookup(samples, initial, wallClock) == Lookup(samples[index..], simulatedTime, wallClock)
    {
      if samples[index].wallClock > wallClock {
        break;
      }
      assert samples[index..][1..] == samples[index + 1..];
      simulatedTime := samples[index].simulatedTime;
    }
  }

  // ---------- agreement ----------

  predicate InOrder(events: seq<Event>) {
    forall i, j :: 0 <= i < j < |events| ==> events[i].occurredAt <= events[j].occurredAt
  }

  predicate SamplesOrdered(samples: seq<Sample>) {
    forall i, j :: 0 <= i < j < |samples| ==> samples[i].wallClock <= samples[j].wallClock
  }

  lemma {:induction false} SortedStays(samples: seq<Sample>)
    requires SamplesOrdered(samples)
    ensures Sort(WallClockOf, samples) == samples
  {
    if samples != [] {
      SortedStays(samples[1..]);
      LeastGoesFirst(samples[0], samples[1..]);
      assert samples == [samples[0]] + samples[1..];
    }
  }

  lemma {:induction false} LeastGoesFirst(first: Sample, rest: seq<Sample>)
    requires rest != [] ==> first.wallClock <= rest[0].wallClock
    ensures Insert(WallClockOf, first, rest) == [first] + rest
  {
    if rest != [] {
      assert !Less(WallClockOf(rest[0]), WallClockOf(first));
    }
  }

  lemma {:induction false} SamplesAreOrdered(events: seq<Event>)
    requires InOrder(events)
    ensures SamplesOrdered(Samples(events))
    ensures forall i :: 0 <= i < |Samples(events)| ==> Samples(events)[i].wallClock <= events[|events| - 1].occurredAt
    ensures events == [] ==> Samples(events) == []
  {
    if events != [] {
      var init := events[..|events| - 1];
      SamplesAreOrdered(init);
      if init != [] {
        assert init[|init| - 1].occurredAt <= events[|events| - 1].occurredAt;
      }
    }
  }

  lemma {:induction false} LookupSplit(before: seq<Sample>, after: seq<Sample>, initial: int, wallClock: int)
    requires forall i :: 0 <= i < |before| ==> before[i].wallClock <= wallClock
    requires after != [] ==> after[0].wallClock > wallClock
    ensures Lookup(before + after, initial, wallClock) ==
      if before == [] then initial else before[|before| - 1].simulatedTime
    decreases |before|
  {
    if before == [] {
      assert before + after == after;
    } else {
      assert (before + after)[1..] == before[1..] + after;
      LookupSplit(before[1..], after, before[0].simulatedTime, wallClock);
    }
  }

  lemma {:induction false} SamplesOfSplit(events: seq<Event>, n: nat)
    requires n <= |events|
    ensures Samples(events[..n]) <= Samples(events)
    ensures forall i :: |Samples(events[..n])| <= i < |Samples(events)| ==>
      exists j :: n <= j < |events| && Samples(events)[i].wallClock == events[j].occurredAt
  {
    if n == |events| {
      assert events[..n] == events;
    } else {
      var init := events[..|events| - 1];
      assert init[..n] == events[..n];
      SamplesOfSplit(init, n);
      forall i | |Samples(events[..n])| <= i < |Samples(events)|
        ensures exists j :: n <= j < |events| && Samples(events)[i].wallClock == events[j].occurredAt
      {
        if i < |Samples(init)| {
          var j :| n <= j < |init| && Samples(init)[i].wallClock == init[j].occurredAt;
          assert events[j].occurredAt == Samples(events)[i].wallClock;
        } else {
          assert events[|events| - 1].occurredAt == Samples(events)[i].wallClock;
        }
      }
    }
  }

  lemma {:induction false} FoldIsLastSample(events: seq<Event>, initial: int)
    ensures Fold(events, initial) ==
      if Samples(events) == [] then initial else Samples(events)[|Samples(events)| - 1].simulatedTime
  {
    if events != [] {
      FoldIsLastSample(events[..|events| - 1], initial);
    }
  }

  // The first n events are exactly those at or before the wall clock.
  predicate Cut(events: seq<Event>, wallClock: int, n: nat) {
    && n <= |events|
    && (forall i :: 0 <= i < n ==> events[i].occurredAt <= wallClock)
    && (forall i :: n <= i < |events| ==> events[i].occurredAt > wallClock)
  }

  // The samples after the cut are later than the given time.
  lemma LaterSamples(events: seq<Event>, wallClock: int, n: nat)
    requires Cut(events, wallClock, n)
    ensures Samples(events[..n]) <= Samples(events)
    ensures var m := |Samples(events[..n])|;
      m == |Samples(events)| || Samples(events)[m].wallClock > wallClock
  {
    SamplesOfSplit(events, n);
    var m := |Samples(events[..n])|;
    if m < |Samples(events)| {
      var j :| n <= j < |events| && Samples(events)[m].wallClock == events[j].occurredAt;
    }
  }

  // A lookup in ordered samples ends at the last one up to the given time.
  lemma LookupPrefix(samples: seq<Sample>, before: seq<Sample>, initial: int, wallClock: int)
    requires before <= samples && forall i :: 0 <= i < |before| ==> before[i].wallClock <= wallClock
    requires |before| == |samples| || samples[|before|].wallClock > wallClock
    ensures Lookup(samples, initial, wallClock) == if before == [] then initial else before[|before| - 1].simulatedTime
  {
    assert samples == before + samples[|before|..];
    LookupSplit(before, samples[|before|..], initial, wallClock);
  }

  // On a log with non-decreasing wall clocks the mapper at t is the fold of the events up to t.
  lemma MapperIsFold(events: seq<Event>, initial: int, wallClock: int, n: nat)
    requires InOrder(events) && Cut(events, wallClock, n)
    ensures Mapped(events, initial, wallClock) == Fold(events[..n], initial)
  {
    SamplesAreOrdered(events);
    SortedStays(Samples(events));
    LaterSamples(events, wallClock, n);
    PrefixSamplesUpTo(events, wallClock, n);
    LookupPrefix(Samples(events), Samples(events[..n]), initial, wallClock);
    FoldIsLastSample(events[..n], initial);
  }

  lemma PrefixSamplesUpTo(events: seq<Event>, wallClock: int, n: nat)
    requires InOrder(events) && Cut(events, wallClock, n)
    ensures forall i :: 0 <= i < |Samples(events[..n])| ==> Samples(events[..n])[i].wallClock <= wallClock
  {
    var prefix := events[..n];
    SamplesAreOrdered(prefix);
    if n > 0 {
      assert prefix[n - 1].occurredAt <= wallClock;
    }
  }

  // The last advance after event i in the wall-clock moment of event i.
  predicate IsLastTied(events: seq<Event>, i: nat, j: nat)
    requires i < |events|
  {
    && i < j < |events| && events[j].TimeAdvanced? && events[j].occurredAt == events[i].occurredAt
    && forall k :: j < k < |events| && events[k].occurredAt == events[i].occurredAt ==> !events[k].TimeAdvanced?
  }

  lemma {:induction false} FoldStep(events: seq<Event>, initial: int, n: nat)
    requires n < |events|
    ensures Fold(events[..n + 1], initial) ==
      if events[n].TimeAdvanced? then events[n].next else Fold(events[..n], initial)
  {
    assert events[..n + 1][..n] == events[..n];
  }

  // The last advance in a range of events sets the time in force after the range.
  lemma {:induction false} FoldOfRange(events: seq<Event>, initial: int, m: nat, n: nat)
    requires m <= n <= |events|
    ensures (forall k :: m <= k < n ==> !events[k].TimeAdvanced?) ==>
      Fold(events[..n], initial) == Fold(events[..m], initial)
    ensures forall j ::
      m <= j < n && events[j].TimeAdvanced? && (forall k :: j < k < n ==> !events[k].TimeAdvanced?) ==>
        Fold(events[..n], initial) == events[j].next
    decreases n
  {
    if m < n {
      FoldStep(events, initial, n - 1);
      FoldOfRange(events, initial, m, n - 1);
    }
  }

  lemma {:induction false} LastAdvance(events: seq<Event>, m: nat, n: nat) returns (j: nat)
    requires m <= n <= |events| && exists k :: m <= k < n && events[k].TimeAdvanced?
    ensures m <= j < n && events[j].TimeAdvanced? && forall k :: j < k < n ==> !events[k].TimeAdvanced?
    decreases n
  {
    if events[n - 1].TimeAdvanced? {
      j := n - 1;
    } else {
      j := LastAdvance(events, m, n - 1);
    }
  }

  lemma {:induction false} CutIsTied(events: seq<Event>, i: nat, n: nat, k: nat)
    requires InOrder(events) && i < |events| && Cut(events, events[i].occurredAt, n) && i < k < |events|
    ensures k < n <==> events[k].occurredAt == events[i].occurredAt
  {
    assert events[i].occurredAt <= events[k].occurredAt;
  }

  // Mapper and fold agree on an event exactly when no later advance has its wall-clock moment, or the
  // last of those sets the time that is already in force.
  lemma {:induction false} AgreeIff(events: seq<Event>, initial: int, i: nat)
    requires InOrder(events) && i < |events|
    ensures Mapped(events, initial, events[i].occurredAt) == Fold(events[..i + 1], initial) <==>
      forall j: nat :: IsLastTied(events, i, j) ==> events[j].next == Fold(events[..i + 1], initial)
  {
    var n := CutOf(events, events[i].occurredAt);
    MapperIsFold(events, initial, events[i].occurredAt, n);
    FoldOfRange(events, initial, i + 1, n);
    forall k | i < k < |events| ensures k < n <==> events[k].occurredAt == events[i].occurredAt {
      CutIsTied(events, i, n, k);
    }
    if exists k :: i + 1 <= k < n && events[k].TimeAdvanced? {
      var j := LastAdvance(events, i + 1, n);
      assert IsLastTied(events, i, j);
    }
  }

  lemma {:induction false} FoldUnchanged(events: seq<Event>, initial: int, m: nat, n: nat)
    requires m <= n <= |events|
    requires forall k :: m <= k < n && events[k].TimeAdvanced? ==> events[k].next == Fold(events[..k], initial)
    ensures Fold(events[..n], initial) == Fold(events[..m], initial)
    decreases n
  {
    if m < n {
      FoldStep(events, initial, n - 1);
      FoldUnchanged(events, initial, m, n - 1);
    }
  }

  predicate AgreesAt(events: seq<Event>, initial: int, i: nat)
    requires i < |events|
  {
    Mapped(events, initial, events[i].occurredAt) == Fold(events[..i + 1], initial)
  }

  // They agree on all events of a log exactly when no advance that shares its wall-clock moment with the
  // event before it changes the time.
  lemma {:induction false} AgreeEverywhereIff(events: seq<Event>, initial: int)
    requires InOrder(events)
    ensures (forall i :: 0 <= i < |events| ==> AgreesAt(events, initial, i)) <==>
      forall j :: 0 < j < |events| && events[j].TimeAdvanced? && events[j - 1].occurredAt == events[j].occurredAt ==>
        events[j].next == Fold(events[..j], initial)
  {
    if forall i :: 0 <= i < |events| ==> AgreesAt(events, initial, i) {
      forall j | 0 < j < |events| && events[j].TimeAdvanced? && events[j - 1].occurredAt == events[j].occurredAt
        ensures events[j].next == Fold(events[..j], initial)
      {
        assert AgreesAt(events, initial, j - 1) && AgreesAt(events, initial, j);
        FoldStep(events, initial, j);
      }
    }
    if forall j :: 0 < j < |events| && events[j].TimeAdvanced? && events[j - 1].occurredAt == events[j].occurredAt ==>
         events[j].next == Fold(events[..j], initial)
    {
      forall i | 0 <= i < |events| ensures AgreesAt(events, initial, i) {
        var n := CutOf(events, events[i].occurredAt);
        MapperIsFold(events, initial, events[i].occurredAt, n);
        forall k | i + 1 <= k < n && events[k].TimeAdvanced? ensures events[k].next == Fold(events[..k], initial) {
          assert events[i].occurredAt <= events[k - 1].occurredAt <= events[k].occurredAt <= events[i].occurredAt;
        }
        FoldUnchanged(events, initial, i + 1, n);
      }
    }
  }

  // With strictly increasing wall clocks they agree on every event.
  lemma StrictClocksAgree(events: seq<Event>, initial: int, i: nat)
    requires forall a, b :: 0 <= a < b < |events| ==> events[a].occurredAt < events[b].occurredAt
    requires i < |events|
    ensures Mapped(events, initial, events[i].occurredAt) == Fold(events[..i + 1], initial)
  {
    MapperIsFold(events, initial, events[i].occurredAt, i + 1);
  }

  // Two advances in one wall-clock moment: the mapper already sees the second one at the first.
  lemma TiedClocksDisagree()
    ensures var events := [TimeAdvanced(5, 10), TimeAdvanced(5, 20)];
      Mapped(events, 0, events[0].occurredAt) == 20 && Fold(events[..1], 0) == 10
  {
    var events := [TimeAdvanced(5, 10), TimeAdvanced(5, 20)];
    MapperIsFold(events, 0, 5, 2);
    assert events[..2] == events;
  }

  // ---------- monotonicity ----------

  // The simulated clock never runs backwards, starting from the initial time.
  predicate Advancing(events: seq<Event>, initial: int) {
    forall i :: 0 <= i < |events| && events[i].TimeAdvanced? ==> Fold(events[..i], initial) <= events[i].next
  }

  lemma {:induction false} FoldIsMonotone(events: seq<Event>, initial: int, m: nat, n: nat)
    requires Advancing(events, initial) && m <= n <= |events|
    ensures Fold(events[..m], initial) <= Fold(events[..n], initial)
    decreases n
  {
    if m < n {
      FoldIsMonotone(events, initial, m, n - 1);
      assert events[..n][..n - 1] == events[..n - 1];
    }
  }

  lemma {:induction false} CutOf(events: seq<Event>, wallClock: int) returns (n: nat)
    requires InOrder(events)
    ensures Cut(events, wallClock, n)
  {
    n := 0;
    while n < |events| && events[n].occurredAt <= wallClock
      invariant n <= |events| && forall i :: 0 <= i < n ==> events[i].occurredAt <= wallClock
    {
      n := n + 1;
    }
  }

  // Both ways of telling the time are monotone when simulated time is.
  lemma MapperIsMonotone(events: seq<Event>, initial: int, earlier: int, later: int)
    requires InOrder(events) && Advancing(events, initial) && earlier <= later
    ensures Mapped(events, initial, earlier) <= Mapped(events, initial, later)
  {
    var m := CutOf(events, earlier);
    var n := CutOf(events, later);
    MapperIsFold(events, initial, earlier, m);
    MapperIsFold(events, initial, later, n);
    assert m <= n;
    FoldIsMonotone(events, initial, m, n);
  }
}
