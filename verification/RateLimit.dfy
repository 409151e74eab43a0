// The sliding-window mutation limiter in its two forms: the durable port that filters a full ledger,
// and the in-memory port that prunes. Times and windows are integer milliseconds.
module RateLimit {
  import opened Wrappers
  import opened Ordering

  datatype Category = Registration | Steering

  datatype Entry = Entry(subject: string, category: Category, occurredAt: int)

  datatype Limit = Limit(limit: int, windowMs: int)

  datatype Call = Call(subject: string, category: Category, occurredAt: int, limit: Limit)

  datatype Reply = Accepted(remaining: int) | Rejected(retryAfterMs: int)

  datatype InputError = InvalidLimit | InvalidWindow

  predicate ValidLimit(limit: Limit) {
    limit.limit >= 1 && limit.windowMs > 0
  }

  // ---------- time lists ----------

  // The times after `start`, up to and including `end`.
  function Between(times: seq<int>, start: int, end: int): seq<int> {
    if times == [] then []
    else
      var last := times[|times| - 1];
      Between(times[..|times| - 1], start, end) + (if start < last <= end then [last] else [])
  }

  function After(times: seq<int>, start: int): seq<int> {
    if times == [] then []
    else
      var last := times[|times| - 1];
      After(times[..|times| - 1], start) + (if start < last then [last] else [])
  }

  function Least(times: seq<int>): int
    requires times != []
  {
    if |times| == 1 then times[0]
    else
      var rest := Least(times[..|times| - 1]);
      if times[|times| - 1] < rest then times[|times| - 1] else rest
  }

  function Max(a: int, b: int): int {
    if a >= b then a else b
  }

  function RetryAfter(oldest: int, windowMs: int, now: int): int {
    Max(1, oldest + windowMs - now)
  }

  predicate AllUpTo(times: seq<int>, bound: int) {
    forall i :: 0 <= i < |times| ==> times[i] <= bound
  }

  predicate NonDecreasing(times: seq<int>) {
    forall i, j :: 0 <= i < j < |times| ==> times[i] <= times[j]
  }

  // ---------- the ledger port ----------

  // The times recorded for one principal and category, in ledger order.
  function TimesOf(ledger: seq<Entry>, subject: string, category: Category): seq<int> {
    if ledger == [] then []
    else
      var last := ledger[|ledger| - 1];
      TimesOf(ledger[..|ledger| - 1], subject, category)
      + (if last.subject == subject && last.category == category then [last.occurredAt] else [])
  }

  function LedgerReply(times: seq<int>, now: int, limit: Limit): Reply
    requires ValidLimit(limit)
  {
    var recent := Between(times, now - limit.windowMs, now);
    if |recent| >= limit.limit then Rejected(RetryAfter(Least(recent), limit.windowMs, now))
    else Accepted(limit.limit - |recent| - 1)
  }

  // The key of the sort by time.
  function Self(t: int): seq<int> {
    [t]
  }

  lemma {:induction false} InsertStart(t: int, times: seq<int>)
    ensures Insert(Self, t, times) != []
    ensures Insert(Self, t, times)[0] == if times == [] || t <= times[0] then t else times[0]
  {
  }

  lemma {:induction false} LeastOfCons(t: int, times: seq<int>)
    requires times != []
    ensures Least([t] + times) == if t <= Least(times) then t else Least(times)
  {
    var all := [t] + times;
    assert all[..|all| - 1] == [t] + times[..|times| - 1];
    if |times| > 1 {
      LeastOfCons(t, times[..|times| - 1]);
    } else {
      assert all[..|all| - 1] == [t];
    }
  }

  lemma {:induction false} SortStartsWithLeast(times: seq<int>)
    requires times != []
    ensures Sort(Self, times) != [] && Sort(Self, times)[0] == Least(times)
  {
    InsertStart(times[0], Sort(Self, times[1..]));
    if |times| > 1 {
      SortStartsWithLeast(times[1..]);
      LeastOfCons(times[0], times[1..]);
      assert times == [times[0]] + times[1..];
    }
  }

  class FileLimiter {
    var ledger: seq<Entry>

    constructor ()
      ensures ledger == []
    {
      ledger := [];
    }

    // `consumeSerial`
    method Consume(call: Call) returns (r: Result<Reply, InputError>)
      modifies this
      ensures r.Ok? <==> ValidLimit(call.limit)
      ensures r.Ok? ==>
        r.value == LedgerReply(TimesOf(old(ledger), call.subject, call.category), call.occurredAt, call.limit)
      ensures ledger == old(ledger) +
        (if r.Ok? && r.value.Accepted? then [Entry(call.subject, call.category, call.occurredAt)] else [])
    {
      if call.limit.limit < 1 {
        return Error(InvalidLimit);
      }
      if call.limit.windowMs <= 0 {
        return Error(InvalidWindow);
      }
      var windowStartedAt := call.occurredAt - call.limit.windowMs;
      var recent: seq<int> := [];
      for index := 0 to |ledger|
        invariant recent ==
          Between(TimesOf(ledger[..index], call.subject, call.category), windowStartedAt, call.occurredAt)
      {
        var record := ledger[index];
        assert ledger[..index + 1][..index] == ledger[..index];
        ghost var before := TimesOf(ledger[..index], call.subject, call.category);
        if record.subject == call.subject && record.category == call.category {
          assert (before + [record.occurredAt])[..|before|] == before;
          if record.occurredAt > windowStartedAt && record.occurredAt <= call.occurredAt {
            recent := recent + [record.occurredAt];
          }
        } else {
          assert before + [] == before;
        }
      }
      assert ledger[..|ledger|] == ledger;
      if |recent| >= call.limit.limit {
        SortStartsWithLeast(recent);
        return Ok(Rejected(Max(1, Sort(Self, recent)[0] + call.limit.windowMs - call.occurredAt)));
      }
      ledger := ledger + [Entry(call.subject, call.category, call.occurredAt)];
      return Ok(Accepted(call.limit.limit - |recent| - 1));
    }
  }

  // ---------- the in-memory port ----------

  function CategoryName(category: Category): string {
    match category
    case Registration => "registration"
    case Steering => "steering"
  }

  function KeyOf(subject: string, category: Category): string {
    subject + ":" + CategoryName(category)
  }

  // Subjects may contain colons; the key still tells both parts.
  lemma KeyIsInjective(subject: string, category: Category, otherSubject: string, otherCategory: Category)
    requires KeyOf(subject, category) == KeyOf(otherSubject, otherCategory)
    ensures subject == otherSubject && category == otherCategory
  {
    var k, l := KeyOf(subject, category), KeyOf(otherSubject, otherCategory);
    assert k[|k| - 1] == CategoryName(category)[|CategoryName(category)| - 1];
    assert l[|l| - 1] == CategoryName(otherCategory)[|CategoryName(otherCategory)| - 1];
    assert category == otherCategory;
    assert k[..|subject|] == subject && l[..|otherSubject|] == otherSubject;
  }

  type Memory = map<string, seq<int>>

  function Stored(memory: Memory, subject: string, category: Category): seq<int> {
    var key := KeyOf(subject, category);
    if key in memory then memory[key] else []
  }

  // Unlike the durable port this one takes any limit; without a recent call the delay is a whole window.
  function MemoryReply(stored: seq<int>, now: int, limit: Limit): Reply {
    var recent := After(stored, now - limit.windowMs);
    if |recent| >= limit.limit then Rejected(RetryAfter(if recent == [] then now else recent[0], limit.windowMs, now))
    else Accepted(limit.limit - |recent| - 1)
  }

  class MemoryLimiter {
    var timestampsByKey: Memory

    constructor ()
      ensures timestampsByKey == map[]
    {
      timestampsByKey := map[];
    }

    // `consume` of the in-memory port; an accepted call stores the pruned list, a rejected one nothing.
    method Consume(call: Call) returns (r: Reply)
      modifies this
      ensures r == MemoryReply(Stored(old(timestampsByKey), call.subject, call.category), call.occurredAt, call.limit)
      ensures timestampsByKey == MemoryStep(old(timestampsByKey), call)
    {
      var key := KeyOf(call.subject, call.category);
      var windowStartedAt := call.occurredAt - call.limit.windowMs;
      var recent := After(if key in timestampsByKey then timestampsByKey[key] else [], windowStartedAt);
      if |recent| >= call.limit.limit {
        var oldest := if recent == [] then call.occurredAt else recent[0];
        return Rejected(Max(1, oldest + call.limit.windowMs - call.occurredAt));
      }
      recent := recent + [call.occurredAt];
      timestampsByKey := timestampsByKey[key := recent];
      return Accepted(call.limit.limit - |recent|);
    }
  }

  function MemoryStep(memory: Memory, call: Call): Memory {
    var stored := Stored(memory, call.subject, call.category);
    if MemoryReply(stored, call.occurredAt, call.limit).Rejected? then memory
    else
      var kept := After(stored, call.occurredAt - call.limit.windowMs);
      memory[KeyOf(call.subject, call.category) := kept + [call.occurredAt]]
  }

  // ---------- runs under a fixed policy ----------

  datatype Policy = Policy(registration: Limit, steering: Limit)

  function LimitFor(policy: Policy, category: Category): Limit {
    match category
    case Registration => policy.registration
    case Steering => policy.steering
  }

  predicate ValidPolicy(policy: Policy) {
    ValidLimit(policy.registration) && ValidLimit(policy.steering)
  }

  datatype Visit = Visit(subject: string, category: Category, occurredAt: int)

  function ReplyTo(policy: Policy, ledger: seq<Entry>, v: Visit): Reply
    requires ValidPolicy(policy)
  {
    LedgerReply(TimesOf(ledger, v.subject, v.category), v.occurredAt, LimitFor(policy, v.category))
  }

  // The ledger after a sequence of calls by any mix of principals.
  function LedgerAfter(policy: Policy, visits: seq<Visit>): seq<Entry>
    requires ValidPolicy(policy)
  {
    if visits == [] then []
    else
      var before := LedgerAfter(policy, visits[..|visits| - 1]);
      var v := visits[|visits| - 1];
      if ReplyTo(policy, before, v).Accepted? then before + [Entry(v.subject, v.category, v.occurredAt)] else before
  }

  // The times at which one principal calls in one category, accepted or not.
  function CallTimes(visits: seq<Visit>, subject: string, category: Category): seq<int> {
    if visits == [] then []
    else
      var last := visits[|visits| - 1];
      CallTimes(visits[..|visits| - 1], subject, category)
      + (if last.subject == subject && last.category == category then [last.occurredAt] else [])
  }

  // The clock does not step back between calls of one principal in one category.
  predicate Ordered(visits: seq<Visit>, subject: string, category: Category) {
    NonDecreasing(CallTimes(visits, subject, category))
  }

  lemma {:induction false} BetweenIncluded(times: seq<int>, a: int, b: int, c: int, d: int)
    requires forall i :: 0 <= i < |times| && a < times[i] <= b ==> c < times[i] <= d
    ensures |Between(times, a, b)| <= |Between(times, c, d)|
  {
    if times != [] {
      BetweenIncluded(times[..|times| - 1], a, b, c, d);
    }
  }

  lemma {:induction false} BetweenMissesOne(times: seq<int>, a: int, b: int, c: int, d: int, t: int)
    requires forall i :: 0 <= i < |times| && a < times[i] <= b ==> c < times[i] <= d
    requires t in times && c < t <= d && !(a < t <= b)
    ensures |Between(times, a, b)| < |Between(times, c, d)|
  {
    var init, last := times[..|times| - 1], times[|times| - 1];
    BetweenIncluded(init, a, b, c, d);
    if t in init {
      BetweenMissesOne(init, a, b, c, d, t);
    }
  }

  predicate IsLeastBetween(t: int, times: seq<int>, start: int, end: int) {
    && t in times && start < t <= end
    && forall i :: 0 <= i < |times| && start < times[i] <= end ==> t <= times[i]
  }

  lemma LeastOfSnoc(times: seq<int>, t: int)
    ensures Least(times + [t]) == if times == [] || t < Least(times) then t else Least(times)
  {
    assert (times + [t])[..|times|] == times;
  }

  lemma LeastBetweenSnoc(t: int, times: seq<int>, last: int, start: int, end: int)
    requires IsLeastBetween(t, times, start, end)
    ensures IsLeastBetween(if start < last <= end && last < t then last else t, times + [last], start, end)
  {
  }

  lemma OnlyLastBetween(times: seq<int>, last: int, start: int, end: int)
    requires start < last <= end && forall i :: 0 <= i < |times| ==> !(start < times[i] <= end)
    ensures IsLeastBetween(last, times + [last], start, end)
  {
    assert (times + [last])[|times|] == last;
  }

  lemma {:induction false} LeastIsRecent(times: seq<int>, start: int, end: int)
    requires Between(times, start, end) != []
    ensures IsLeastBetween(Least(Between(times, start, end)), times, start, end)
  {
    var init, last := times[..|times| - 1], times[|times| - 1];
    var before := Between(init, start, end);
    assert times == init + [last];
    LeastOfSnoc(before, last);
    if before == [] {
      NoneBetween(init, start, end);
      OnlyLastBetween(init, last, start, end);
    } else {
      LeastIsRecent(init, start, end);
      LeastBetweenSnoc(Least(before), init, last, start, end);
      assert before + [] == before;
    }
  }

  lemma {:induction false} NoneBetween(times: seq<int>, start: int, end: int)
    requires Between(times, start, end) == []
    ensures forall i :: 0 <= i < |times| ==> !(start < times[i] <= end)
  {
    if times != [] {
      NoneBetween(times[..|times| - 1], start, end);
    }
  }

  lemma TimesOfAppend(ledger: seq<Entry>, e: Entry, subject: string, category: Category)
    ensures TimesOf(ledger + [e], subject, category) ==
      if e.subject == subject && e.category == category then TimesOf(ledger, subject, category) + [e.occurredAt]
      else TimesOf(ledger, subject, category)
  {
    assert (ledger + [e])[..|ledger|] == ledger;
  }

  // One call adds its time to its own list when it is accepted, and touches no other list.
  lemma CallAddsTime(policy: Policy, visits: seq<Visit>, subject: string, category: Category)
    requires ValidPolicy(policy) && visits != []
    ensures var v := visits[|visits| - 1];
      var before := LedgerAfter(policy, visits[..|visits| - 1]);
      TimesOf(LedgerAfter(policy, visits), subject, category) ==
        if v.subject == subject && v.category == category && ReplyTo(policy, before, v).Accepted?
        then TimesOf(before, subject, category) + [v.occurredAt] else TimesOf(before, subject, category)
  {
    var v := visits[|visits| - 1];
    TimesOfAppend(
      LedgerAfter(policy, visits[..|visits| - 1]), Entry(v.subject, v.category, v.occurredAt), subject, category);
  }

  // Recorded times are the times of calls, in order, none later than the last call.
  predicate OrderedUpTo(times: seq<int>, bound: int) {
    NonDecreasing(times) && AllUpTo(times, bound)
  }

  lemma {:induction false} OrderedSnoc(times: seq<int>, t: int, bound: int)
    requires OrderedUpTo(times, t) && t <= bound
    ensures OrderedUpTo(times, bound) && OrderedUpTo(times + [t], bound)
  {
  }

  lemma {:induction false} OrderedFront(times: seq<int>, t: int, bound: int)
    requires OrderedUpTo(times + [t], bound)
    ensures OrderedUpTo(times, t) && t <= bound
  {
    var all := times + [t];
    assert all[|times|] == t;
    forall i | 0 <= i < |times| ensures times[i] <= t {
      assert times[i] == all[i] <= all[|times|];
    }
    forall i, j | 0 <= i < j < |times| ensures times[i] <= times[j] {
      assert times[i] == all[i] && times[j] == all[j];
    }
  }

  lemma {:induction false} TimesAreOrdered(
    policy: Policy, visits: seq<Visit>, subject: string, category: Category, now: int)
    requires ValidPolicy(policy) && OrderedUpTo(CallTimes(visits, subject, category), now)
    ensures OrderedUpTo(TimesOf(LedgerAfter(policy, visits), subject, category), now)
    decreases |visits|
  {
    if visits != [] {
      var init, v := visits[..|visits| - 1], visits[|visits| - 1];
      CallAddsTime(policy, visits, subject, category);
      var before := CallTimes(init, subject, category);
      if v.subject == subject && v.category == category {
        OrderedFront(before, v.occurredAt, now);
        TimesAreOrdered(policy, init, subject, category, v.occurredAt);
        OrderedSnoc(TimesOf(LedgerAfter(policy, init), subject, category), v.occurredAt, now);
      } else {
        assert before + [] == before;
        TimesAreOrdered(policy, init, subject, category, now);
      }
    }
  }

  lemma BetweenAppend(times: seq<int>, t: int, start: int, end: int)
    ensures Between(times + [t], start, end) == Between(times, start, end) + (if start < t <= end then [t] else [])
  {
    assert (times + [t])[..|times|] == times;
  }

  // An accepted call keeps every window within the limit.
  lemma AcceptedKeepsBound(times: seq<int>, now: int, limit: Limit, start: int, end: int)
    requires ValidLimit(limit) && AllUpTo(times, now) && end == start + limit.windowMs
    requires LedgerReply(times, now, limit).Accepted?
    requires |Between(times, start, end)| <= limit.limit
    ensures |Between(times + [now], start, end)| <= limit.limit
  {
    BetweenAppend(times, now, start, end);
    if start < now <= end {
      BetweenIncluded(times, start, end, now - limit.windowMs, now);
    }
  }

  // Ordered calls are ordered up to the last of them, and so are the ones before it.
  lemma {:induction false} OrderedInit(visits: seq<Visit>, subject: string, category: Category)
    requires Ordered(visits, subject, category) && visits != []
    ensures var init, v := visits[..|visits| - 1], visits[|visits| - 1];
      && Ordered(init, subject, category)
      && (v.subject == subject && v.category == category ==>
        OrderedUpTo(CallTimes(init, subject, category), v.occurredAt))
  {
    var init, v := visits[..|visits| - 1], visits[|visits| - 1];
    var before := CallTimes(init, subject, category);
    if v.subject == subject && v.category == category {
      LastIsGreatest(before, v.occurredAt);
      OrderedFront(before, v.occurredAt, v.occurredAt);
    } else {
      assert before + [] == before;
    }
  }

  lemma {:induction false} LastIsGreatest(times: seq<int>, t: int)
    requires NonDecreasing(times + [t])
    ensures OrderedUpTo(times + [t], t)
  {
    var all := times + [t];
    forall i | 0 <= i < |all| ensures all[i] <= t {
      assert i < |times| ==> all[i] <= all[|times|];
    }
  }

  // The bound: every half-open window of the configured length holds at most `limit` accepted calls of
  // one principal in one category.
  lemma {:induction false} WindowBound(
    policy: Policy, visits: seq<Visit>, subject: string, category: Category, start: int, end: int)
    requires ValidPolicy(policy) && Ordered(visits, subject, category)
    requires end == start + LimitFor(policy, category).windowMs
    ensures IsBounded(policy, visits, subject, category, start, end)
    decreases |visits|
  {
    if visits == [] {
      assert TimesOf([], subject, category) == [];
    } else {
      var init, v := visits[..|visits| - 1], visits[|visits| - 1];
      var times := TimesOf(LedgerAfter(policy, init), subject, category);
      OrderedInit(visits, subject, category);
      WindowBound(policy, init, subject, category, start, end);
      CallAddsTime(policy, visits, subject, category);
      if v.subject == subject && v.category == category && ReplyTo(policy, LedgerAfter(policy, init), v).Accepted? {
        TimesAreOrdered(policy, init, subject, category, v.occurredAt);
        AcceptedKeepsBound(times, v.occurredAt, LimitFor(policy, category), start, end);
      }
    }
  }

  predicate IsBounded(policy: Policy, visits: seq<Visit>, subject: string, category: Category, start: int, end: int)
    requires ValidPolicy(policy)
  {
    |Between(TimesOf(LedgerAfter(policy, visits), subject, category), start, end)| <= LimitFor(policy, category).limit
  }

  // ---------- and only for ordered calls ----------

  // As many calls as the limit allows are all accepted.
  lemma {:induction false} FirstCallsAccepted(policy: Policy, visits: seq<Visit>, subject: string, category: Category)
    requires ValidPolicy(policy) && |CallTimes(visits, subject, category)| <= LimitFor(policy, category).limit
    ensures TimesOf(LedgerAfter(policy, visits), subject, category) == CallTimes(visits, subject, category)
    decreases |visits|
  {
    if visits != [] {
      var init, v := visits[..|visits| - 1], visits[|visits| - 1];
      var before := CallTimes(init, subject, category);
      FirstCallsAccepted(policy, init, subject, category);
      CallAddsTime(policy, visits, subject, category);
      if v.subject == subject && v.category == category {
        RoomForCall(before, v.occurredAt, LimitFor(policy, category));
      } else {
        assert before + [] == before;
      }
    }
  }

  predicate SomeLater(times: seq<int>, t: int) {
    exists i :: 0 <= i < |times| && times[i] > t
  }

  // A call is accepted when fewer calls than the limit were recorded, or as many but one of them later.
  lemma {:induction false} RoomForCall(times: seq<int>, t: int, limit: Limit)
    requires ValidLimit(limit) && |times| <= limit.limit
    requires |times| < limit.limit || SomeLater(times, t)
    ensures LedgerReply(times, t, limit).Accepted?
  {
    var start := t - limit.windowMs;
    BetweenIsShorter(times, start, t);
    AcceptedMeansRoom(times, t, limit, start);
  }

  lemma {:induction false} BetweenIsShorter(times: seq<int>, start: int, end: int)
    ensures |Between(times, start, end)| <= |times|
    ensures SomeLater(times, end) ==> |Between(times, start, end)| < |times|
    ensures (forall i :: 0 <= i < |times| ==> start < times[i] <= end) ==> Between(times, start, end) == times
  {
    if times != [] {
      var init, last := times[..|times| - 1], times[|times| - 1];
      assert times == init + [last];
      BetweenIsShorter(init, start, end);
      if SomeLater(times, end) {
        var i :| 0 <= i < |times| && times[i] > end;
        assert i < |init| ==> init[i] > end;
      }
    }
  }

  lemma {:induction false} Bounds(times: seq<int>) returns (lo: int, hi: int)
    ensures lo < hi && forall i :: 0 <= i < |times| ==> lo < times[i] <= hi
  {
    if times == [] {
      return 0, 1;
    }
    var last := times[|times| - 1];
    lo, hi := Bounds(times[..|times| - 1]);
    lo, hi := if last <= lo then last - 1 else lo, if last > hi then last else hi;
    assert forall i :: 0 <= i < |times| - 1 ==> times[i] == times[..|times| - 1][i];
  }

  // A ledger only grows, and with it the number of calls in a window.
  lemma {:induction false} WindowGrows(
    policy: Policy, visits: seq<Visit>, subject: string, category: Category, start: int, end: int)
    requires ValidPolicy(policy) && visits != []
    requires !IsBounded(policy, visits[..|visits| - 1], subject, category, start, end)
    ensures !IsBounded(policy, visits, subject, category, start, end)
  {
    CallAddsTime(policy, visits, subject, category);
    var before := TimesOf(LedgerAfter(policy, visits[..|visits| - 1]), subject, category);
    BetweenAppend(before, visits[|visits| - 1].occurredAt, start, end);
  }

  // The first call that steps back is accepted beside as many calls as the limit allows.
  lemma {:induction false} StepBackBreaksBound(visits: seq<Visit>, subject: string, category: Category)
    returns (policy: Policy, start: int, end: int)
    requires !Ordered(visits, subject, category)
    ensures ValidPolicy(policy) && end == start + LimitFor(policy, category).windowMs
    ensures !IsBounded(policy, visits, subject, category, start, end)
    decreases |visits|
  {
    var init := visits[..|visits| - 1];
    if !Ordered(init, subject, category) {
      policy, start, end := StepBackBreaksBound(init, subject, category);
      WindowGrows(policy, visits, subject, category, start, end);
    } else {
      var times, v := CallTimes(init, subject, category), visits[|visits| - 1];
      assert times + [] == times && visits == init + [v];
      start, end := Bounds(CallTimes(visits, subject, category));
      var limit := Limit(|times|, end - start);
      policy := Policy(limit, limit);
      LaterThanLast(times, v.occurredAt);
      LastStepBack(policy, init, v);
      BetweenIsShorter(times + [v.occurredAt], start, end);
    }
  }

  // Of one call more than the limit, the last of which steps back, every one is recorded.
  lemma {:induction false} LastStepBack(policy: Policy, init: seq<Visit>, v: Visit)
    requires ValidPolicy(policy)
    requires var times := CallTimes(init, v.subject, v.category);
      SomeLater(times, v.occurredAt) && LimitFor(policy, v.category).limit == |times|
    ensures TimesOf(LedgerAfter(policy, init + [v]), v.subject, v.category)
         == CallTimes(init, v.subject, v.category) + [v.occurredAt]
  {
    var visits := init + [v];
    assert visits[..|visits| - 1] == init && visits[|visits| - 1] == v;
    FirstCallsAccepted(policy, init, v.subject, v.category);
    RoomForCall(CallTimes(init, v.subject, v.category), v.occurredAt, LimitFor(policy, v.category));
    CallAddsTime(policy, visits, v.subject, v.category);
  }

  lemma {:induction false} LaterThanLast(times: seq<int>, t: int)
    requires NonDecreasing(times) && !NonDecreasing(times + [t])
    ensures SomeLater(times, t)
  {
    if AllUpTo(times, t) {
      OrderedSnoc(times, t, t);
    }
  }

  // The bound holds under every valid policy, for every window, exactly when the calls of that principal
  // in that category come in order; other principals' clocks do not matter.
  lemma {:induction false} BoundHoldsIff(visits: seq<Visit>, subject: string, category: Category)
    ensures Ordered(visits, subject, category) <==>
      forall policy, start, end :: ValidPolicy(policy) && end == start + LimitFor(policy, category).windowMs ==>
        IsBounded(policy, visits, subject, category, start, end)
  {
    if Ordered(visits, subject, category) {
      forall policy, start, end | ValidPolicy(policy) && end == start + LimitFor(policy, category).windowMs
        ensures IsBounded(policy, visits, subject, category, start, end)
      {
        WindowBound(policy, visits, subject, category, start, end);
      }
    } else {
      var policy, start, end := StepBackBreaksBound(visits, subject, category);
    }
  }

  lemma {:induction false} RecentEndsExactly(
    times: seq<int>, now: int, later: int, limit: Limit, start: int, laterStart: int)
    requires ValidLimit(limit) && AllUpTo(times, now) && now <= later
    requires start == now - limit.windowMs && laterStart == later - limit.windowMs
    requires |Between(times, start, now)| == limit.limit
    ensures Between(times, start, now) != []
    ensures var oldest := Least(Between(times, start, now));
      && start < oldest <= now
      && (|Between(times, laterStart, later)| < limit.limit <==> later >= oldest + limit.windowMs)
  {
    LeastIsRecent(times, start, now);
    var oldest := Least(Between(times, start, now));
    if later >= oldest + limit.windowMs {
      BetweenMissesOne(times, laterStart, later, start, now, oldest);
    } else {
      BetweenIncluded(times, start, now, laterStart, later);
    }
  }

  lemma {:induction false} RejectedMeansFull(times: seq<int>, now: int, limit: Limit, start: int)
    requires ValidLimit(limit) && start == now - limit.windowMs
    requires LedgerReply(times, now, limit).Rejected?
    ensures |Between(times, start, now)| >= limit.limit
    ensures LedgerReply(times, now, limit).retryAfterMs ==
      RetryAfter(Least(Between(times, start, now)), limit.windowMs, now)
  {
  }

  lemma {:induction false} AcceptedMeansRoom(times: seq<int>, now: int, limit: Limit, start: int)
    requires ValidLimit(limit) && start == now - limit.windowMs
    ensures LedgerReply(times, now, limit).Accepted? <==> |Between(times, start, now)| < limit.limit
  {
  }

  lemma {:induction false} RejectionEndsExactly(times: seq<int>, now: int, later: int, limit: Limit, start: int)
    requires ValidLimit(limit) && AllUpTo(times, now) && now <= later
    requires start == now - limit.windowMs && |Between(times, start, now)| <= limit.limit
    requires LedgerReply(times, now, limit).Rejected?
    ensures var delay := LedgerReply(times, now, limit).retryAfterMs;
      delay >= 1 && (LedgerReply(times, later, limit).Accepted? <==> later >= now + delay)
  {
    var laterStart := later - limit.windowMs;
    RejectedMeansFull(times, now, limit, start);
    AcceptedMeansRoom(times, later, limit, laterStart);
    RecentEndsExactly(times, now, later, limit, start, laterStart);
  }

  // The retry delay of a rejection is exact: with no other accepted call of that principal in that
  // category, a call at a later moment is accepted precisely from `retryAfterMs` on.
  lemma {:induction false} RetryDelayIsExact(
    policy: Policy, visits: seq<Visit>, subject: string, category: Category, now: int, later: int)
    requires ValidPolicy(policy) && OrderedUpTo(CallTimes(visits, subject, category), now)
    requires ReplyTo(policy, LedgerAfter(policy, visits), Visit(subject, category, now)).Rejected?
    requires now <= later
    ensures var ledger := LedgerAfter(policy, visits);
      var delay := ReplyTo(policy, ledger, Visit(subject, category, now)).retryAfterMs;
      && delay >= 1
      && (ReplyTo(policy, ledger, Visit(subject, category, later)).Accepted? <==> later >= now + delay)
  {
    var times, limit := TimesOf(LedgerAfter(policy, visits), subject, category), LimitFor(policy, category);
    var start := now - limit.windowMs;
    TimesAreOrdered(policy, visits, subject, category, now);
    WindowBound(policy, visits, subject, category, start, now);
    RejectionEndsExactly(times, now, later, limit, start);
  }

  // ---------- the pruned port refines the ledger ----------

  function MemoryAfter(policy: Policy, visits: seq<Visit>): Memory
    requires ValidPolicy(policy)
  {
    if visits == [] then map[]
    else
      var v := visits[|visits| - 1];
      MemoryStep(MemoryAfter(policy, visits[..|visits| - 1]),
        Call(v.subject, v.category, v.occurredAt, LimitFor(policy, v.category)))
  }

  lemma AfterAppend(times: seq<int>, t: int, start: int)
    ensures After(times + [t], start) == After(times, start) + (if start < t then [t] else [])
  {
    assert (times + [t])[..|times|] == times;
  }

  lemma {:induction false} AfterTwice(times: seq<int>, first: int, second: int)
    requires first <= second
    ensures After(After(times, first), second) == After(times, second)
  {
    if times != [] {
      var init, last := times[..|times| - 1], times[|times| - 1];
      AfterTwice(init, first, second);
      AfterAppend(After(init, first), last, second);
      if first >= last {
        assert After(init, first) + [] == After(init, first);
      }
    }
  }

  lemma {:induction false} AfterIsBetween(times: seq<int>, start: int, end: int)
    requires AllUpTo(times, end)
    ensures After(times, start) == Between(times, start, end)
  {
    if times != [] {
      AfterIsBetween(times[..|times| - 1], start, end);
    }
  }

  lemma {:induction false} FirstIsLeast(times: seq<int>, start: int, end: int)
    requires NonDecreasing(times) && Between(times, start, end) != []
    ensures Least(Between(times, start, end)) == Between(times, start, end)[0]
  {
    var init, last := times[..|times| - 1], times[|times| - 1];
    var recent, before := Between(times, start, end), Between(init, start, end);
    if before != [] {
      FirstIsLeast(init, start, end);
      if recent != before {
        assert recent[..|recent| - 1] == before;
        LeastIsRecent(init, start, end);
        assert Least(before) <= last;
      }
    }
  }

  // From the pruned list and the full one, the same times are left after any start that future calls
  // can ask for.
  ghost predicate Agree(stored: seq<int>, times: seq<int>, horizon: int) {
    forall start :: horizon <= start ==> After(stored, start) == After(times, start)
  }

  lemma AgreeAfterCall(stored: seq<int>, times: seq<int>, horizon: int, now: int)
    requires Agree(stored, times, horizon)
    ensures Agree(After(stored, horizon) + [now], times + [now], horizon)
  {
    forall start | horizon <= start
      ensures After(After(stored, horizon) + [now], start) == After(times + [now], start)
    {
      AfterAppend(After(stored, horizon), now, start);
      AfterAppend(times, now, start);
      AfterTwice(stored, horizon, start);
      assert After(stored, start) == After(times, start);
    }
  }

  // Up to which start the two lists have to agree after the calls so far.
  function Horizon(policy: Policy, visits: seq<Visit>, subject: string, category: Category): int {
    var times := CallTimes(visits, subject, category);
    if times == [] then 0 else times[|times| - 1] - LimitFor(policy, category).windowMs
  }

  lemma {:induction false} MemoryAgreesWithLedger(
    policy: Policy, visits: seq<Visit>, subject: string, category: Category)
    requires ValidPolicy(policy) && Ordered(visits, subject, category)
    ensures Agree(Stored(MemoryAfter(policy, visits), subject, category),
                  TimesOf(LedgerAfter(policy, visits), subject, category),
                  Horizon(policy, visits, subject, category))
    decreases |visits|, 1
  {
    if visits != [] {
      var init, v := visits[..|visits| - 1], visits[|visits| - 1];
      OrderedInit(visits, subject, category);
      MemoryAgreesWithLedger(policy, init, subject, category);
      CallAddsTime(policy, visits, subject, category);
      CallStoresTime(policy, visits, subject, category);
      if v.subject == subject && v.category == category {
        OlderHorizon(policy, visits, subject, category);
        RepliesAgree(policy, visits);
        if MemoryReplyTo(policy, MemoryAfter(policy, init), v).Accepted? {
          AgreeAfterCall(Stored(MemoryAfter(policy, init), subject, category),
            TimesOf(LedgerAfter(policy, init), subject, category),
            Horizon(policy, visits, subject, category), v.occurredAt);
        }
      } else {
        assert CallTimes(init, subject, category) + [] == CallTimes(init, subject, category);
      }
    }
  }

  lemma StepStores(memory: Memory, call: Call, subject: string, category: Category, start: int)
    requires start == call.occurredAt - call.limit.windowMs
    ensures var stored := Stored(memory, call.subject, call.category);
      Stored(MemoryStep(memory, call), subject, category) ==
        if call.subject == subject && call.category == category
          && MemoryReply(stored, call.occurredAt, call.limit).Accepted?
        then After(stored, start) + [call.occurredAt] else Stored(memory, subject, category)
  {
    if KeyOf(subject, category) == KeyOf(call.subject, call.category) {
      KeyIsInjective(subject, category, call.subject, call.category);
    }
  }

  // One call rewrites its own list when it is accepted, and no other list.
  lemma {:induction false} CallStoresTime(policy: Policy, visits: seq<Visit>, subject: string, category: Category)
    requires ValidPolicy(policy) && visits != []
    ensures var v := visits[|visits| - 1];
      var memory := MemoryAfter(policy, visits[..|visits| - 1]);
      Stored(MemoryAfter(policy, visits), subject, category) ==
        if v.subject == subject && v.category == category && MemoryReplyTo(policy, memory, v).Accepted?
        then After(Stored(memory, subject, category), Horizon(policy, visits, subject, category)) + [v.occurredAt]
        else Stored(memory, subject, category)
  {
    var v := visits[|visits| - 1];
    var memory := MemoryAfter(policy, visits[..|visits| - 1]);
    var call := Call(v.subject, v.category, v.occurredAt, LimitFor(policy, v.category));
    LastHorizon(policy, visits);
    StepStores(memory, call, subject, category, Horizon(policy, visits, v.subject, v.category));
  }

  lemma {:induction false} LastHorizon(policy: Policy, visits: seq<Visit>)
    requires visits != []
    ensures var v := visits[|visits| - 1];
      Horizon(policy, visits, v.subject, v.category) == v.occurredAt - LimitFor(policy, v.category).windowMs
  {
  }

  // Agreement before the last call reaches up to its own window start.
  lemma {:induction false} OlderHorizon(policy: Policy, visits: seq<Visit>, subject: string, category: Category)
    requires ValidPolicy(policy) && Ordered(visits, subject, category) && visits != []
    requires visits[|visits| - 1].subject == subject && visits[|visits| - 1].category == category
    requires var init := visits[..|visits| - 1];
      Agree(Stored(MemoryAfter(policy, init), subject, category),
            TimesOf(LedgerAfter(policy, init), subject, category), Horizon(policy, init, subject, category))
    ensures var init := visits[..|visits| - 1];
      Agree(Stored(MemoryAfter(policy, init), subject, category),
            TimesOf(LedgerAfter(policy, init), subject, category), Horizon(policy, visits, subject, category))
  {
    var init := visits[..|visits| - 1];
    OrderedInit(visits, subject, category);
    if CallTimes(init, subject, category) == [] {
      NothingStored(policy, init, subject, category);
    }
  }

  lemma {:induction false} NothingStored(policy: Policy, visits: seq<Visit>, subject: string, category: Category)
    requires ValidPolicy(policy) && CallTimes(visits, subject, category) == []
    ensures Stored(MemoryAfter(policy, visits), subject, category) == []
    ensures TimesOf(LedgerAfter(policy, visits), subject, category) == []
    decreases |visits|
  {
    if visits != [] {
      NothingStored(policy, visits[..|visits| - 1], subject, category);
      CallStoresTime(policy, visits, subject, category);
      CallAddsTime(policy, visits, subject, category);
    }
  }

  function MemoryReplyTo(policy: Policy, memory: Memory, v: Visit): Reply
    requires ValidPolicy(policy)
  {
    MemoryReply(Stored(memory, v.subject, v.category), v.occurredAt, LimitFor(policy, v.category))
  }

  // With lists that agree, the two reply rules coincide.
  lemma SameReply(stored: seq<int>, times: seq<int>, now: int, limit: Limit, start: int)
    requires ValidLimit(limit) && start == now - limit.windowMs
    requires OrderedUpTo(times, now) && Agree(stored, times, start)
    ensures MemoryReply(stored, now, limit) == LedgerReply(times, now, limit)
  {
    assert After(stored, start) == After(times, start);
    AfterIsBetween(times, start, now);
    if Between(times, start, now) != [] {
      FirstIsLeast(times, start, now);
    }
  }

  // The pruned port refines the ledger: for a call that comes in order after any calls by any mix of
  // principals, both give the same status, the same remaining count and the same retry delay.
  lemma {:induction false} RepliesAgree(policy: Policy, visits: seq<Visit>)
    requires ValidPolicy(policy) && visits != []
    requires Ordered(visits, visits[|visits| - 1].subject, visits[|visits| - 1].category)
    ensures var init, v := visits[..|visits| - 1], visits[|visits| - 1];
      MemoryReplyTo(policy, MemoryAfter(policy, init), v) == ReplyTo(policy, LedgerAfter(policy, init), v)
    decreases |visits|, 0
  {
    var init, v := visits[..|visits| - 1], visits[|visits| - 1];
    var limit := LimitFor(policy, v.category);
    var start := v.occurredAt - limit.windowMs;
    var stored := Stored(MemoryAfter(policy, init), v.subject, v.category);
    var times := TimesOf(LedgerAfter(policy, init), v.subject, v.category);
    OrderedInit(visits, v.subject, v.category);
    MemoryAgreesWithLedger(policy, init, v.subject, v.category);
    OlderHorizon(policy, visits, v.subject, v.category);
    TimesAreOrdered(policy, init, v.subject, v.category, v.occurredAt);
    SameReply(stored, times, v.occurredAt, limit, start);
  }

  // ---------- the remaining count ----------

  // The same call, so many times more.
  function Again(visits: seq<Visit>, v: Visit, n: nat): seq<Visit> {
    if n == 0 then visits else Again(visits, v, n - 1) + [v]
  }

  lemma {:induction false} TimesOnce(policy: Policy, visits: seq<Visit>, v: Visit)
    requires ValidPolicy(policy)
    ensures var before := LedgerAfter(policy, visits);
      TimesOf(LedgerAfter(policy, visits + [v]), v.subject, v.category) ==
        TimesOf(before, v.subject, v.category) + (if ReplyTo(policy, before, v).Accepted? then [v.occurredAt] else [])
  {
    var all := visits + [v];
    assert all[..|all| - 1] == visits && all[|all| - 1] == v;
    CallAddsTime(policy, all, v.subject, v.category);
    NothingAdded(TimesOf(LedgerAfter(policy, visits), v.subject, v.category));
  }

  lemma {:induction false} NothingAdded(times: seq<int>)
    ensures times + [] == times
  {
  }

  // Within the window, an accepted call adds itself.
  lemma {:induction false} CountOnce(times: seq<int>, now: int, limit: Limit)
    requires ValidLimit(limit)
    ensures var counted := |Between(times, now - limit.windowMs, now)|;
      |Between(times + (if LedgerReply(times, now, limit).Accepted? then [now] else []), now - limit.windowMs, now)| ==
      counted + (if counted < limit.limit then 1 else 0)
  {
    BetweenAppend(times, now, now - limit.windowMs, now);
    NothingAdded(times);
  }

  // The recorded times after as many more calls at the same time.
  function Repeated(times: seq<int>, now: int, limit: Limit, n: nat): seq<int>
    requires ValidLimit(limit)
  {
    if n == 0 then times
    else
      var before := Repeated(times, now, limit, n - 1);
      before + (if LedgerReply(before, now, limit).Accepted? then [now] else [])
  }

  lemma {:induction false} CountRepeated(times: seq<int>, now: int, limit: Limit, n: nat)
    requires ValidLimit(limit) && |Between(times, now - limit.windowMs, now)| <= limit.limit
    ensures var counted := |Between(times, now - limit.windowMs, now)|;
      |Between(Repeated(times, now, limit, n), now - limit.windowMs, now)| ==
        if counted + n <= limit.limit then counted + n else limit.limit
  {
    if n > 0 {
      CountRepeated(times, now, limit, n - 1);
      CountOnce(Repeated(times, now, limit, n - 1), now, limit);
    }
  }

  lemma {:induction false} TimesRepeated(
    policy: Policy, visits: seq<Visit>, v: Visit, n: nat, times: seq<int>, all: seq<Visit>, list: seq<int>)
    requires ValidPolicy(policy) && times == TimesOf(LedgerAfter(policy, visits), v.subject, v.category)
    requires all == Again(visits, v, n) && list == Repeated(times, v.occurredAt, LimitFor(policy, v.category), n)
    ensures TimesOf(LedgerAfter(policy, all), v.subject, v.category) == list
  {
    if n > 0 {
      var limit := LimitFor(policy, v.category);
      var before, earlier := Again(visits, v, n - 1), Repeated(times, v.occurredAt, limit, n - 1);
      TimesRepeated(policy, visits, v, n - 1, times, before, earlier);
      NextRepeated(policy, before, v, earlier);
    }
  }

  lemma {:induction false} NextRepeated(policy: Policy, visits: seq<Visit>, v: Visit, times: seq<int>)
    requires ValidPolicy(policy) && times == TimesOf(LedgerAfter(policy, visits), v.subject, v.category)
    ensures TimesOf(LedgerAfter(policy, visits + [v]), v.subject, v.category) ==
      times + (if LedgerReply(times, v.occurredAt, LimitFor(policy, v.category)).Accepted? then [v.occurredAt] else [])
  {
    TimesOnce(policy, visits, v);
  }

  // An accepted call leaves room for exactly as many more at the same time as it says.
  lemma {:induction false} RemainingIsExact(policy: Policy, visits: seq<Visit>, v: Visit, n: nat)
    requires ValidPolicy(policy) && ReplyTo(policy, LedgerAfter(policy, visits), v).Accepted?
    ensures var remaining := ReplyTo(policy, LedgerAfter(policy, visits), v).remaining;
      && remaining >= 0
      && (ReplyTo(policy, LedgerAfter(policy, Again(visits, v, 1 + n)), v).Accepted? <==> n < remaining)
  {
    var times := TimesOf(LedgerAfter(policy, visits), v.subject, v.category);
    var limit := LimitFor(policy, v.category);
    TimesRepeated(
      policy, visits, v, 1 + n, times, Again(visits, v, 1 + n), Repeated(times, v.occurredAt, limit, 1 + n));
    CountRepeated(times, v.occurredAt, limit, 1 + n);
  }
}
