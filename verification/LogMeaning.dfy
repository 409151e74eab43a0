// What the folding reader computes, said of the records themselves: which logs it accepts, and what an
// accepted log holds.
module LogMeaning {
  import opened Wrappers
  import opened AuditLog

  // Record i is this event.
  predicate IsAt(log: seq<Record>, i: int, event: Event) {
    0 <= i < |log| && log[i].body.event == event
  }

  ghost predicate IsIn(log: seq<Record>, event: Event) {
    exists i :: IsAt(log, i, event)
  }

  ghost predicate IsPrepared(log: seq<Record>) {
    exists id, root, fingerprint :: IsIn(log, CopyPrepared(id, root, fingerprint))
  }

  ghost predicate IsActivated(log: seq<Record>) {
    exists root, manifest, at :: IsIn(log, CopyActivated(root, manifest, at))
  }

  ghost predicate IsStarted(log: seq<Record>, copyId: string) {
    exists fingerprint :: IsIn(log, RetirementStarted(copyId, fingerprint))
  }

  function CopiesOf(log: seq<Record>): seq<DataCopy> {
    if log != [] && log[0].body.event.RequestRecorded? then log[0].body.event.copies else []
  }

  // The first registered copy with the id has this fingerprint.
  predicate Expects(copies: seq<DataCopy>, copyId: string, fingerprint: string) {
    exists i :: 0 <= i < |copies| && copies[i].copyId == copyId && copies[i].treeFingerprint == fingerprint
      && forall j :: 0 <= j < i ==> copies[j].copyId != copyId
  }

  // What may follow the records so far.
  ghost predicate MayFollow(before: seq<Record>, event: Event) {
    match event
    case RequestRecorded(_, _, _, _) => false
    case CopyPrepared(_, _, _) => !IsPrepared(before)
    case CopyActivated(_, _, _) => IsPrepared(before) && !IsActivated(before)
    case RetirementStarted(copyId, fingerprint) =>
      IsActivated(before) && !IsStarted(before, copyId) && Expects(CopiesOf(before), copyId, fingerprint)
    case CopyRetired(copyId) => IsStarted(before, copyId) && !IsIn(before, CopyRetired(copyId))
    case RequestCompleted =>
      && !IsIn(before, RequestCompleted)
      && forall copy :: copy in CopiesOf(before) ==> IsIn(before, CopyRetired(copy.copyId))
  }

  ghost predicate InOrder(log: seq<Record>) {
    && log != [] && log[0].body.event.RequestRecorded?
    && forall n :: 1 <= n < |log| ==> MayFollow(log[..n], log[n].body.event)
  }

  // The state says what is in the log.
  ghost predicate Shows(log: seq<Record>, s: State) {
    && log != [] && log[0].body.event == RequestRecorded(s.requestId, s.subjectReference, s.policy, s.copies)
    && s.requestedAt == log[0].body.occurredAt
    && (forall p :: s.prepared == Some(p) <==> IsIn(log, CopyPrepared(p.deletionId, p.rootDir, p.treeFingerprint)))
    && (forall a :: s.activated == Some(a) <==>
         IsIn(log, CopyActivated(a.rootDir, a.resolvedRunManifestId, a.healthVerifiedAt)))
    && (forall copyId :: copyId in s.started <==> IsStarted(log, copyId))
    && (forall copyId :: copyId in s.retired <==> IsIn(log, CopyRetired(copyId)))
    && (s.completed <==> IsIn(log, RequestCompleted))
  }

  lemma {:induction false} IsInLonger(log: seq<Record>, event: Event)
    requires log != []
    ensures IsIn(log, event) <==> IsIn(log[..|log| - 1], event) || log[|log| - 1].body.event == event
  {
    var init := log[..|log| - 1];
    if IsIn(init, event) {
      var i :| IsAt(init, i, event);
      assert IsAt(log, i, event);
    }
    if IsIn(log, event) {
      var i :| IsAt(log, i, event);
      assert i == |log| - 1 || IsAt(init, i, event);
    }
    assert IsAt(log, |log| - 1, log[|log| - 1].body.event);
  }

  lemma {:induction false} IsStartedLonger(log: seq<Record>, copyId: string)
    requires log != []
    ensures IsStarted(log, copyId) <==>
      IsStarted(log[..|log| - 1], copyId)
      || (log[|log| - 1].body.event.RetirementStarted? && log[|log| - 1].body.event.copyId == copyId)
  {
    var init, last := log[..|log| - 1], log[|log| - 1].body.event;
    forall f ensures IsIn(log, RetirementStarted(copyId, f)) <==>
      IsIn(init, RetirementStarted(copyId, f)) || last == RetirementStarted(copyId, f)
    {
      IsInLonger(log, RetirementStarted(copyId, f));
    }
    if last.RetirementStarted? && last.copyId == copyId {
      assert IsIn(log, RetirementStarted(copyId, last.expectedTreeFingerprint));
    }
  }

  lemma {:induction false} ExpectsIsFound(copies: seq<DataCopy>, copyId: string, fingerprint: string)
    ensures Expects(copies, copyId, fingerprint) <==>
      FindCopy(copies, copyId).Some? && FindCopy(copies, copyId).value.treeFingerprint == fingerprint
  {
    if copies != [] {
      ExpectsIsFound(copies[1..], copyId, fingerprint);
      ExpectsInRest(copies, copyId, fingerprint);
    }
  }

  lemma {:induction false} ExpectsInRest(copies: seq<DataCopy>, copyId: string, fingerprint: string)
    requires copies != []
    ensures Expects(copies, copyId, fingerprint) <==>
      if copies[0].copyId == copyId then copies[0].treeFingerprint == fingerprint
      else Expects(copies[1..], copyId, fingerprint)
  {
    if copies[0].copyId != copyId {
      if Expects(copies, copyId, fingerprint) {
        var i :| 0 <= i < |copies| && copies[i].copyId == copyId && copies[i].treeFingerprint == fingerprint
          && forall j :: 0 <= j < i ==> copies[j].copyId != copyId;
        assert copies[1..][i - 1] == copies[i];
      }
      if Expects(copies[1..], copyId, fingerprint) {
        var i :| 0 <= i < |copies[1..]| && copies[1..][i].copyId == copyId
          && copies[1..][i].treeFingerprint == fingerprint
          && forall j :: 0 <= j < i ==> copies[1..][j].copyId != copyId;
        forall j | 0 <= j < i + 1 ensures copies[j].copyId != copyId {
          assert j > 0 ==> copies[1..][j - 1] == copies[j];
        }
        assert copies[i + 1] == copies[1..][i];
      }
    }
  }

  lemma {:induction false} PreparedIsShown(log: seq<Record>, s: State)
    requires Shows(log, s)
    ensures IsPrepared(log) <==> s.prepared.Some?
    ensures IsActivated(log) <==> s.activated.Some?
  {
    if IsPrepared(log) {
      var id, root, fingerprint :| IsIn(log, CopyPrepared(id, root, fingerprint));
      assert s.prepared == Some(PreparedTarget(id, root, fingerprint));
    }
    if IsActivated(log) {
      var root, manifest, at :| IsIn(log, CopyActivated(root, manifest, at));
      assert s.activated == Some(ActivatedTarget(root, manifest, at));
    }
  }

  // The reader takes a record exactly when it may follow.
  lemma {:induction false} AppliesIff(log: seq<Record>, s: State, event: Event)
    requires Shows(log, s)
    ensures Apply(s, event).Ok? <==> MayFollow(log, event)
  {
    PreparedIsShown(log, s);
    if event.RetirementStarted? {
      ExpectsIsFound(s.copies, event.copyId, event.expectedTreeFingerprint);
    }
  }

  lemma {:induction false} AppliedIsShown(log: seq<Record>, s: State)
    requires |log| > 1 && Shows(log[..|log| - 1], s) && Apply(s, log[|log| - 1].body.event).Ok?
    ensures Shows(log, Apply(s, log[|log| - 1].body.event).value)
  {
    var init, last := log[..|log| - 1], log[|log| - 1].body.event;
    forall event ensures IsIn(log, event) <==> IsIn(init, event) || last == event {
      IsInLonger(log, event);
    }
    forall copyId ensures IsStarted(log, copyId) <==>
      IsStarted(init, copyId) || (last.RetirementStarted? && last.copyId == copyId)
    {
      IsStartedLonger(log, copyId);
    }
    PreparedIsShown(init, s);
    TargetsAreShown(init, s, log, last);
    MarksAreShown(init, s, log, last);
    ApplyKeepsOpening(s, last);
  }

  lemma {:induction false} ApplyKeepsOpening(s: State, event: Event)
    requires Apply(s, event).Ok?
    ensures var t := Apply(s, event).value;
      t.requestId == s.requestId && t.subjectReference == s.subjectReference && t.policy == s.policy
      && t.copies == s.copies && t.requestedAt == s.requestedAt
  {
  }

  lemma {:induction false} MarksAreShown(init: seq<Record>, s: State, log: seq<Record>, last: Event)
    requires Shows(init, s) && Apply(s, last).Ok?
    requires forall event :: IsIn(log, event) <==> IsIn(init, event) || last == event
    requires forall copyId :: IsStarted(log, copyId) <==>
      IsStarted(init, copyId) || (last.RetirementStarted? && last.copyId == copyId)
    ensures var t := Apply(s, last).value;
      && (forall copyId :: copyId in t.started <==> IsStarted(log, copyId))
      && (forall copyId :: copyId in t.retired <==> IsIn(log, CopyRetired(copyId)))
      && (t.completed <==> IsIn(log, RequestCompleted))
  {
  }

  lemma {:induction false} TargetsAreShown(init: seq<Record>, s: State, log: seq<Record>, last: Event)
    requires Shows(init, s) && Apply(s, last).Ok? && (IsPrepared(init) <==> s.prepared.Some?)
    requires IsActivated(init) <==> s.activated.Some?
    requires forall event :: IsIn(log, event) <==> IsIn(init, event) || last == event
    ensures var t := Apply(s, last).value;
      && (forall p :: t.prepared == Some(p) <==> IsIn(log, CopyPrepared(p.deletionId, p.rootDir, p.treeFingerprint)))
      && (forall a :: t.activated == Some(a) <==>
           IsIn(log, CopyActivated(a.rootDir, a.resolvedRunManifestId, a.healthVerifiedAt)))
  {
  }

  lemma {:induction false} OpeningIsShown(log: seq<Record>)
    requires |log| == 1 && log[0].body.event.RequestRecorded?
    ensures Replay(log).Ok? && Shows(log, Replay(log).value)
  {
    forall event ensures IsIn(log, event) <==> log[0].body.event == event {
      IsInLonger(log, event);
    }
    forall copyId ensures !IsStarted(log, copyId) {
      IsStartedLonger(log, copyId);
    }
  }

  // A log is accepted exactly when each record may follow those before it, and the state that is read
  // shows what is in the log.
  lemma {:induction false} AcceptedIff(log: seq<Record>)
    ensures Replay(log).Ok? <==> InOrder(log)
    ensures Replay(log).Ok? ==> Shows(log, Replay(log).value)
    decreases |log|
  {
    if |log| == 1 {
      if log[0].body.event.RequestRecorded? {
        OpeningIsShown(log);
      }
    } else if |log| > 1 {
      var init := log[..|log| - 1];
      AcceptedIff(init);
      InOrderLonger(log);
      if Replay(init).Ok? {
        AppliesIff(init, Replay(init).value, log[|log| - 1].body.event);
        if Replay(log).Ok? {
          AppliedIsShown(log, Replay(init).value);
        }
      }
    }
  }

  lemma {:induction false} InOrderLonger(log: seq<Record>)
    requires |log| > 1
    ensures InOrder(log) <==> InOrder(log[..|log| - 1]) && MayFollow(log[..|log| - 1], log[|log| - 1].body.event)
  {
    var init := log[..|log| - 1];
    forall n | 1 <= n < |init| ensures init[..n] == log[..n] {
    }
    if InOrder(init) && MayFollow(init, log[|log| - 1].body.event) {
      forall n | 1 <= n < |log| ensures MayFollow(log[..n], log[n].body.event) {
        if n < |init| {
          assert MayFollow(init[..n], init[n].body.event);
        }
      }
    }
  }

  // The status by the records: the last stage that the log has a record of.
  ghost predicate HasStatus(log: seq<Record>, status: Status) {
    match status
    case Completed => IsIn(log, RequestCompleted)
    case Retiring => (exists copyId :: IsStarted(log, copyId)) && !IsIn(log, RequestCompleted)
    case Activated => IsActivated(log) && (forall copyId :: !IsStarted(log, copyId)) && !IsIn(log, RequestCompleted)
    case Prepared =>
      && IsPrepared(log) && !IsActivated(log)
      && (forall copyId :: !IsStarted(log, copyId)) && !IsIn(log, RequestCompleted)
    case Requested =>
      && !IsPrepared(log) && !IsActivated(log)
      && (forall copyId :: !IsStarted(log, copyId)) && !IsIn(log, RequestCompleted)
  }

  lemma {:induction false} StatusIsLastStage(log: seq<Record>, status: Status)
    requires Replay(log).Ok?
    ensures StatusOf(Replay(log).value) == status <==> HasStatus(log, status)
  {
    var s := Replay(log).value;
    AcceptedIff(log);
    PreparedIsShown(log, s);
    ReplayIsConsistent(log);
    assert s.started == {} <==> forall copyId :: copyId !in s.started;
  }

  // What a caller is shown of a request.
  datatype View = View(state: State, status: Status, nextDeadline: Option<int>)

  // The end of `readState`: the status of the state read, and the least deadline still pending.
  method ReadView(hash: RecordHash, log: seq<Record>) returns (r: Result<View, LogError>)
    ensures r.Ok? <==> Chained(hash, log) && InOrder(log)
    ensures r.Ok? ==> Shows(log, r.value.state) && HasStatus(log, r.value.status) && Replay(log) == Ok(r.value.state)
    ensures r.Ok? ==> match r.value.nextDeadline
      case None => forall copy :: copy in r.value.state.copies ==> copy.copyId in r.value.state.retired
      case Some(d) =>
        && (exists copy :: IsPending(r.value.state.copies, r.value.state.retired, copy) && copy.retireAfter == d)
        && (forall copy :: IsPending(r.value.state.copies, r.value.state.retired, copy) ==> d <= copy.retireAfter)
  {
    AcceptedIff(log);
    var read := ReadState(hash, log);
    if read.Error? {
      return Error(read.error);
    }
    var s := read.value;
    var next: Option<int> := None;
    for index := |s.copies| downto 0
      invariant next == NextDeadline(s.copies[index..], s.retired)
    {
      var copy := s.copies[index];
      if copy.copyId !in s.retired && (next.None? || copy.retireAfter <= next.value) {
        next := Some(copy.retireAfter);
      }
    }
    NextDeadlineIsLeast(s.copies, s.retired);
    StatusIsLastStage(log, StatusOf(s));
    return Ok(View(s, StatusOf(s), next));
  }
}
