// The writers of an audit log, with its file lock. A call that crashes leaves the lock behind.
module LifecycleWriters {
  import opened Wrappers
  import opened Paths
  import opened AuditLog
  import opened Lifecycle
  import opened LifecycleGuards
  import opened Retirement
  import opened DueRetirement

  datatype CallResult = Returned(state: State) | Threw(failure: Failure) | Crashed

  datatype StepResult = Done | Stopped(failure: Failure) | Interrupted

  // Retirement actions leading from one world to another.
  ghost predicate IsRun(env: Env, w: World, actions: seq<Action>, next: World) {
    && Legal(env, w, actions) && After(env, w, actions) == next
    && forall i :: 0 <= i < |actions| ==> IsRetirement(actions[i])
  }

  // A log that the reader rejects: torn, tampered with, or missing.
  predicate Unreadable(env: Env, log: seq<Record>) {
    !Chained(env.hash, log) || Replay(log).Error?
  }

  // The call is confirmed, and the request is readable and activated.
  predicate MayCall(env: Env, w: World, now: int, writersStopped: bool, confirmed: bool, locked: bool) {
    0 <= now && writersStopped && confirmed && !locked && !Unreadable(env, w.log)
    && Replay(w.log).value.activated.Some?
  }

  // A call that is not cut off returns exactly when it may be made and each copy to be started still has
  // its registered tree; then the copies that are due are retired, and no others. Otherwise the first copy
  // that is missing or changed stops it.
  ghost predicate IsRetirementAnswer(env: Env, w: World, next: World, now: int, mayCall: bool, r: CallResult) {
    match r
    case Crashed => true
    case Returned(_) =>
      mayCall && RetiredWhatIsDue(w, next, now) && forall copy :: copy in Copies(w) ==> Retirable(env, w, now, copy)
    case Threw(failure) =>
      mayCall ==>
        && Replay(w.log).Ok? && StoppedByCopy(env, w, Outcome(next, Some(failure)), now)
        && exists copy :: copy in Copies(w) && !Retirable(env, w, now, copy)
  }

  lemma {:induction false} CallIsAnswered(env: Env, w: World, now: int, ids: nat -> string, r: CallResult)
    requires IsActivated(env, w) && !r.Crashed?
    requires var failure := RetireAll(env, w, now, ids).failure;
      if r.Threw? then failure == Some(r.failure) else failure.None?
    ensures IsRetirementAnswer(env, w, RetireAll(env, w, now, ids).world, now, true, r)
  {
    var out := RetireAll(env, w, now, ids);
    CallRetiresWhatIsDue(env, w, now, ids);
    RetireAllSucceedsIff(env, w, now, ids);
    if r.Threw? {
      assert out == Outcome(out.world, Some(r.failure));
    }
  }

  // What a writer may find: a log of the machine, or one it cannot read.
  predicate Found(env: Env, w: World) {
    Unreadable(env, w.log) || Sound(env, w)
  }

  lemma RunExtend(env: Env, w: World, actions: seq<Action>, middle: World, a: Action)
    requires IsRun(env, w, actions, middle) && Enabled(env, middle, a) && IsRetirement(a)
    ensures IsRun(env, w, actions + [a], Next(env, middle, a))
  {
    LegalExtend(env, w, actions, a);
  }

  lemma SingleStep(env: Env, w: World, a: Action)
    requires Enabled(env, w, a) && IsRetirement(a)
    ensures IsRun(env, w, [a], Next(env, w, a))
  {
    RunExtend(env, w, [], w, a);
    assert [] + [a] == [a];
  }

  lemma RunSplitsLast(env: Env, w: World, actions: seq<Action>, next: World)
    requires IsRun(env, w, actions, next) && actions != []
    ensures var n := |actions| - 1;
      var before := After(env, w, actions[..n]);
      && IsRun(env, w, actions[..n], before)
      && Enabled(env, before, actions[n]) && IsRetirement(actions[n]) && next == Next(env, before, actions[n])
  {
  }

  lemma ConcatLast(first: seq<Action>, second: seq<Action>)
    requires second != []
    ensures first + second == first + second[..|second| - 1] + [second[|second| - 1]]
  {
  }

  lemma {:induction false} RunConcat(
    env: Env, w: World, first: seq<Action>, middle: World, second: seq<Action>, last: World)
    requires IsRun(env, w, first, middle) && IsRun(env, middle, second, last)
    ensures IsRun(env, w, first + second, last)
    decreases |second|
  {
    if second == [] {
      assert first + second == first;
    } else {
      var n := |second| - 1;
      var init := second[..n];
      var before := After(env, middle, init);
      RunSplitsLast(env, middle, second, last);
      RunConcat(env, w, first, middle, init, before);
      RunExtend(env, w, first + init, before, second[n]);
      ConcatLast(first, second);
    }
  }

  class RequestStore {
    const env: Env
    var log: seq<Record>
    var tree: Tree
    var locked: bool

    constructor (env: Env, tree: Tree)
      ensures this.env == env && Current() == World([], tree) && !locked
    {
      this.env := env;
      this.log, this.tree, this.locked := [], tree, false;
    }

    function Current(): World
      reads this
    {
      World(log, tree)
    }

    // An operator removes the lock file of a crashed call.
    method ClearStaleLock()
      modifies this`locked
      ensures !locked
    {
      locked := false;
    }

    // `appendRecord`: reads and verifies the log again before writing at its end.
    method AppendRecord(eventId: string, occurredAt: int, event: Event) returns (ok: bool)
      modifies this`log
      ensures ok <==> Chained(env.hash, old(log))
      ensures log == if ok then Append(env, old(Current()), eventId, occurredAt, event).log else old(log)
    {
      var records := VerifyRecords(env.hash, log);
      if records.Error? {
        return false;
      }
      var sequence := (if |log| == 0 then 0 else log[|log| - 1].body.sequence) + 1;
      var previousHash := if |log| == 0 then GENESIS else log[|log| - 1].recordHash;
      var body := Unsigned(POLICY_VERSION, sequence, eventId, occurredAt, previousHash, event);
      log := log + [Record(body, env.hash(body))];
      return true;
    }

    // `validateIdentityBearingCopyRoot` over all roots.
    method CheckRoots(roots: seq<string>) returns (ok: bool)
      ensures ok <==> forall i :: 0 <= i < |roots| ==> ValidRoot(env, tree, roots[i])
    {
      for index := 0 to |roots|
        invariant forall i :: 0 <= i < index ==> ValidRoot(env, tree, roots[i])
      {
        var root := roots[index];
        if TooBroad(root)
          || IsSameOrNested(root, env.auditRootDir) || IsSameOrNested(env.auditRootDir, root)
          || root !in tree
        {
          assert !ValidRoot(env, tree, roots[index]);
          return false;
        }
      }
      return true;
    }

    method RegisterCopies(request: Request) returns (copies: seq<DataCopy>)
      requires FreshIds(request)
      ensures copies == Registered(env, tree, request)
    {
      copies := [];
      var roots := Roots(request);
      for index := 0 to |roots|
        invariant copies == Registered(env, tree, request)[..index]
      {
        var kind := if index == 0 then Source else Backup;
        var fingerprint := FingerprintAt(env, tree, roots[index]);
        copies := copies + [DataCopy(
          request.copyIds[index], kind, roots[index], fingerprint, request.requestedAt + Retention(request, index))];
      }
    }

    // `createLocalRuntimeTownParticipantDataLifecycleRequest`
    method CreateRequest(request: Request, eventId: string, writersStopped: bool) returns (r: CallResult)
      requires FreshIds(request)
      modifies this`log
      ensures !r.Crashed?
      ensures r.Returned? <==> writersStopped && !locked && Enabled(env, old(Current()), Create(eventId, request))
      ensures r.Returned? ==>
        && Current() == Next(env, old(Current()), Create(eventId, request))
        && Chained(env.hash, log) && Replay(log) == Ok(r.state) && StatusOf(r.state) == Requested
      ensures r.Threw? ==> Current() == old(Current())
      // In terms of the arguments, the log and the disk alone:
      ensures r.Returned? <==> writersStopped && !locked && MayCreate(env, old(Current()), request)
      ensures r.Returned? ==> IsNew(env, tree, request, r.state)
    {
      CreateIff(env, Current(), eventId, request);
      if !writersStopped {
        return Threw(ConfirmationMissing);
      }
      var rootsValid := CheckRoots(Roots(request));
      var disjoint := CheckDisjointRoots(Roots(request));
      if !ValidTimes(request) || !rootsValid || !disjoint {
        return Threw(InvalidInput);
      }
      var copies := RegisterCopies(request);
      if locked {
        return Threw(RequestLocked);
      }
      if log != [] {
        return Threw(RequestExists);
      }
      CreateIsSound(env, Current(), Create(eventId, request));
      CreatedIsNew(env, Current(), eventId, request);
      var policy := Policy(request.directIdentityRetentionMs, request.backupRetentionMs);
      var ok := AppendRecord(eventId, request.requestedAt,
        RequestRecorded(request.requestId, request.subjectReference, policy, copies));
      var state := ReadState(env.hash, log);
      return Returned(state.value);
    }

    // `recordLocalRuntimeTownParticipantDataAnonymizedCopyPrepared`
    method RecordPrepared(eventId: string, occurredAt: int, target: string) returns (r: CallResult)
      requires Found(env, Current())
      modifies this`log
      ensures !r.Crashed?
      ensures Unreadable(env, old(log)) ==> r.Threw?
      ensures r.Returned? <==>
        !locked && !Unreadable(env, old(log)) && Enabled(env, old(Current()), Prepare(eventId, occurredAt, target))
      ensures r.Returned? ==>
        && Current() == Next(env, old(Current()), Prepare(eventId, occurredAt, target))
        && Sound(env, Current()) && Replay(log) == Ok(r.state)
        && r.state.prepared.Some? && r.state.prepared.value.rootDir == target
      ensures r.Threw? ==> Current() == old(Current())
      // In terms of the arguments, the log and the disk alone:
      ensures r.Returned? <==>
        !locked && Chained(env.hash, old(log))
        && exists artifact :: MayPrepare(env, old(Current()), occurredAt, target, artifact)
      ensures r.Returned? ==> forall artifact :: MayPrepare(env, old(Current()), occurredAt, target, artifact) ==>
        Records(old(Current()), Current(), eventId, occurredAt,
          CopyPrepared(artifact.deletionId, target, artifact.targetTreeFingerprint))
    {
      PrepareIff(env, Current(), eventId, occurredAt, target);
      if occurredAt < 0 {
        return Threw(InvalidInput);
      }
      if locked {
        return Threw(RequestLocked);
      }
      var read := ReadState(env.hash, log);
      if read.Error? {
        return Threw(LogUnreadable);
      }
      var state := read.value;
      if state.prepared.Some?
        || target !in tree || !Disjoint(target, env.auditRootDir) || !DisjointFromCopies(target, state.copies)
      {
        return Threw(TargetRejected);
      }
      var artifact := ArtifactAt(env, tree, target);
      if artifact.None? || !MatchesSource(state.copies, artifact.value.sourceTreeFingerprint) {
        return Threw(TargetRejected);
      }
      ghost var action := Prepare(eventId, occurredAt, target);
      StepKeepsSound(env, Current(), action);
      EnabledEventApplies(env, Current(), action);
      var ok := AppendRecord(eventId, occurredAt,
        CopyPrepared(artifact.value.deletionId, target, artifact.value.targetTreeFingerprint));
      read := ReadState(env.hash, log);
      return Returned(read.value);
    }

    // `recordLocalRuntimeTownParticipantDataAnonymizedCopyActivated`
    method RecordActivated(eventId: string, occurredAt: int, target: string, manifestId: string,
        healthVerifiedAt: int, confirmed: bool)
      returns (r: CallResult)
      requires Found(env, Current())
      modifies this`log
      ensures !r.Crashed?
      ensures Unreadable(env, old(log)) ==> r.Threw?
      ensures r.Returned? <==>
        && confirmed && !locked && !Unreadable(env, old(log))
        && Enabled(env, old(Current()), Activate(eventId, occurredAt, target, manifestId, healthVerifiedAt))
      ensures r.Returned? ==>
        && Current() == Next(env, old(Current()), Activate(eventId, occurredAt, target, manifestId, healthVerifiedAt))
        && Sound(env, Current()) && Replay(log) == Ok(r.state)
        && r.state.activated.Some? && r.state.activated.value.rootDir == r.state.prepared.value.rootDir == target
      ensures r.Threw? ==> Current() == old(Current())
      // In terms of the arguments, the log and the disk alone:
      ensures r.Returned? <==>
        confirmed && !locked && Chained(env.hash, old(log))
        && exists artifact :: MayActivate(env, old(Current()), occurredAt, target, healthVerifiedAt, artifact)
      ensures r.Returned? ==>
        Records(old(Current()), Current(), eventId, occurredAt, CopyActivated(target, manifestId, healthVerifiedAt))
    {
      ActivateIff(env, Current(), eventId, occurredAt, target, manifestId, healthVerifiedAt);
      if occurredAt < 0 || healthVerifiedAt < 0 || healthVerifiedAt > occurredAt {
        return Threw(InvalidInput);
      }
      if !confirmed {
        return Threw(ConfirmationMissing);
      }
      if locked {
        return Threw(RequestLocked);
      }
      var read := ReadState(env.hash, log);
      if read.Error? {
        return Threw(LogUnreadable);
      }
      var state := read.value;
      if state.prepared.None? || state.activated.Some? || target != state.prepared.value.rootDir {
        return Threw(TargetRejected);
      }
      var artifact := ArtifactAt(env, tree, target);
      if artifact.None? || artifact.value.deletionId != state.prepared.value.deletionId {
        return Threw(TargetRejected);
      }
      ghost var action := Activate(eventId, occurredAt, target, manifestId, healthVerifiedAt);
      StepKeepsSound(env, Current(), action);
      EnabledEventApplies(env, Current(), action);
      var ok := AppendRecord(eventId, occurredAt, CopyActivated(target, manifestId, healthVerifiedAt));
      read := ReadState(env.hash, log);
      return Returned(read.value);
    }

    // The part of an interrupted recursive removal that took effect: any of the entries below the root,
    // and the root itself only when nothing else is left.
    static function Torn(tree: Tree, root: string, lost: set<string>): (paths: set<string>)
      ensures RemovalStep(tree, root, paths)
    {
      var paths := lost * PathsUnder(tree, root);
      if root in paths && paths != PathsUnder(tree, root) then paths - {root} else paths
    }

    // `rmSync` of the root, if it still exists. Without power the removal stops halfway.
    method RemoveTree(copy: DataCopy, state: State, now: int, power: nat, lost: set<string>)
      returns (interrupted: bool, left: nat, ghost actions: seq<Action>)
      requires Replay(log) == Ok(state) && Due(state, now, copy) && copy.copyId in state.started
      modifies this`tree
      ensures IsRun(env, old(Current()), actions, Current())
      ensures if interrupted then |actions| >= power else left + |actions| == power
      ensures !interrupted ==> Current() == Emptied(old(Current()), copy) && copy.rootDir !in tree
    {
      if copy.rootDir !in tree {
        return false, power, [];
      }
      ghost var start := Current();
      var paths := if power == 0 then Torn(tree, copy.rootDir, lost) else PathsUnder(tree, copy.rootDir);
      assert copy.rootDir in PathsUnder(tree, copy.rootDir);
      SingleStep(env, start, RemovePaths(now, copy, paths));
      actions := [RemovePaths(now, copy, paths)];
      tree := tree - paths;
      interrupted, left := power == 0, if power == 0 then 0 else power - 1;
    }

    // The deletion half of an iteration: remove the tree, then append the retired record.
    method FinishOne(copy: DataCopy, state: State, now: int, ids: nat -> string, power: nat, lost: set<string>)
      returns (step: StepResult, left: nat, stateAfter: State, ghost actions: seq<Action>)
      requires Sound(env, Current()) && Replay(log) == Ok(state)
      requires Due(state, now, copy) && copy.copyId in state.started
      modifies this`log, this`tree
      ensures Sound(env, Current()) && !step.Stopped?
      ensures IsRun(env, old(Current()), actions, Current())
      ensures if step.Interrupted? then |actions| >= power else left + |actions| == power
      ensures step.Done? ==>
        && Outcome(Current(), None) == FinishCopy(env, old(Current()), now, ids, copy)
        && Replay(log) == Ok(stateAfter) && stateAfter.copies == state.copies && stateAfter.activated.Some?
    {
      stateAfter := state;
      ghost var start := Current();
      var interrupted;
      interrupted, left, actions := RemoveTree(copy, state, now, power, lost);
      if interrupted || left == 0 {
        return Interrupted, 0, state, actions;
      }
      left := left - 1;
      ghost var middle := Current();
      ghost var action := FinishRetirement(ids(|log|), now, copy);
      EnabledEventApplies(env, middle, action);
      StepKeepsSound(env, middle, action);
      RunExtend(env, start, actions, middle, action);
      var ok := AppendRecord(ids(|log|), now, CopyRetired(copy.copyId));
      assert Current() == Next(env, middle, action);
      actions := actions + [action];
      var read := ReadState(env.hash, log);
      stateAfter := read.value;
      step := Done;
    }

    // The intent to retire a copy is recorded before anything is removed.
    method RecordIntent(copy: DataCopy, state: State, now: int, ids: nat -> string) returns (stateAfter: State)
      requires Sound(env, Current()) && Replay(log) == Ok(state)
      requires Enabled(env, Current(), StartRetirement(ids(|log|), now, copy))
      modifies this`log
      ensures Current() == Next(env, old(Current()), StartRetirement(ids(|old(log)|), now, copy))
      ensures Sound(env, Current()) && Replay(log) == Ok(stateAfter)
      ensures stateAfter == state.(started := state.started + {copy.copyId})
    {
      ghost var action := StartRetirement(ids(|log|), now, copy);
      EnabledEventApplies(env, Current(), action);
      StepKeepsSound(env, Current(), action);
      var ok := AppendRecord(ids(|log|), now, RetirementStarted(copy.copyId, copy.treeFingerprint));
      var read := ReadState(env.hash, log);
      stateAfter := read.value;
    }

    // One iteration of the retirement loop.
    method RetireOne(copy: DataCopy, state: State, now: int, ids: nat -> string, power: nat, lost: set<string>)
      returns (step: StepResult, left: nat, stateAfter: State, ghost actions: seq<Action>)
      requires Sound(env, Current()) && Replay(log) == Ok(state)
      requires state.activated.Some? && copy in state.copies
      modifies this`log, this`tree
      ensures Sound(env, Current())
      ensures IsRun(env, old(Current()), actions, Current())
      ensures if step.Interrupted? then |actions| >= power else left + |actions| == power
      ensures !step.Interrupted? ==>
        Outcome(Current(), if step.Done? then None else Some(step.failure)) ==
        RetireCopy(env, old(Current()), now, ids, copy)
      ensures step.Done? ==>
        Replay(log) == Ok(stateAfter) && stateAfter.copies == state.copies && stateAfter.activated.Some?
    {
      left, stateAfter, actions := power, state, [];
      if copy.retireAfter > now || copy.copyId in state.retired {
        return Done, left, state, actions;
      }
      ghost var start := Current();
      if copy.copyId !in state.started {
        if copy.rootDir !in tree {
          return Stopped(CopyDisappeared(copy.copyId)), left, state, actions;
        }
        var fingerprint := FingerprintAt(env, tree, copy.rootDir);
        if fingerprint != copy.treeFingerprint {
          return Stopped(CopyChanged(copy.copyId)), left, state, actions;
        }
        if left == 0 {
          return Interrupted, 0, state, actions;
        }
        left := left - 1;
        ghost var action := StartRetirement(ids(|log|), now, copy);
        SingleStep(env, start, action);
        RetireCopyStarts(env, start, now, ids, copy, action);
        stateAfter := RecordIntent(copy, state, now, ids);
        actions := [action];
      }
      ghost var middle := Current();
      ghost var more;
      step, left, stateAfter, more := FinishOne(copy, stateAfter, now, ids, left, lost);
      RunConcat(env, start, actions, middle, more, Current());
      actions := actions + more;
    }

    // The loop over the registered copies.
    method RetireCopies(state: State, now: int, ids: nat -> string, power: nat, lost: set<string>)
      returns (step: StepResult, left: nat, stateAfter: State, ghost actions: seq<Action>)
      requires Sound(env, Current()) && Replay(log) == Ok(state) && state.activated.Some?
      modifies this`log, this`tree
      ensures Sound(env, Current())
      ensures IsRun(env, old(Current()), actions, Current())
      ensures if step.Interrupted? then |actions| >= power else left + |actions| == power
      ensures !step.Interrupted? ==>
        Outcome(Current(), if step.Done? then None else Some(step.failure)) ==
        RetireLoop(env, old(Current()), now, ids, state.copies)
      ensures step.Done? ==> Replay(log) == Ok(stateAfter) && stateAfter.activated.Some?
    {
      var copies := state.copies;
      ghost var start := Current();
      left, stateAfter, actions := power, state, [];
      for index := 0 to |copies|
        invariant Sound(env, Current()) && Replay(log) == Ok(stateAfter)
        invariant stateAfter.activated.Some? && stateAfter.copies == copies
        invariant IsRun(env, start, actions, Current())
        invariant left + |actions| == power
        invariant RetireLoop(env, Current(), now, ids, copies[index..]) == RetireLoop(env, start, now, ids, copies)
      {
        assert copies[index..][0] == copies[index] && copies[index..][1..] == copies[index + 1..];
        ghost var before := Current();
        ghost var more;
        step, left, stateAfter, more := RetireOne(copies[index], stateAfter, now, ids, left, lost);
        RunConcat(env, start, actions, before, more, Current());
        actions := actions + more;
        if !step.Done? {
          return;
        }
      }
      step := Done;
    }

    // Past the loop: record completion once every copy is retired.
    method CompleteRequest(state: State, now: int, ids: nat -> string, power: nat)
      returns (interrupted: bool, ghost actions: seq<Action>)
      requires Sound(env, Current()) && Replay(log) == Ok(state) && state.activated.Some?
      modifies this`log
      ensures Sound(env, Current())
      ensures IsRun(env, old(Current()), actions, Current())
      ensures interrupted ==> |actions| >= power
      ensures !interrupted ==> Outcome(Current(), None) == CompleteIfDone(env, old(Current()), now, ids)
    {
      actions := [];
      if state.completed || !AllRetired(state.copies, state.retired) {
        return false, [];
      }
      if power == 0 {
        return true, [];
      }
      ghost var start := Current();
      ghost var action := Complete(ids(|log|), now);
      EnabledEventApplies(env, start, action);
      StepKeepsSound(env, start, action);
      SingleStep(env, start, action);
      var ok := AppendRecord(ids(|log|), now, RequestCompleted);
      return false, [action];
    }

    // `retireDueLocalRuntimeTownParticipantDataCopies`. The machine loses power after `power` durable
    // effects; a removal under way at that moment has taken away some of the `lost` entries.
    method RetireDue(now: int, writersStopped: bool, confirmed: bool, ids: nat -> string,
        power: nat, lost: set<string>)
      returns (r: CallResult, ghost actions: seq<Action>)
      requires Found(env, Current())
      modifies this
      ensures IsRun(env, old(Current()), actions, Current())
      ensures old(Sound(env, Current())) ==> Sound(env, Current())
      ensures Unreadable(env, old(log)) ==> r.Threw? && Current() == old(Current()) && locked == old(locked)
      ensures !(writersStopped && confirmed && 0 <= now && !old(locked)) ==> r.Threw? && Current() == old(Current())
      ensures if r.Crashed? then locked && |actions| >= power else locked == old(locked)
      ensures !r.Crashed? && writersStopped && confirmed && 0 <= now && !old(locked) && !Unreadable(env, old(log)) ==>
        var out := RetireAll(env, old(Current()), now, ids);
        && Current() == out.world
        && (match r
            case Threw(failure) => out.failure == Some(failure)
            case Returned(state) => out.failure.None? && Replay(log) == Ok(state)
            case Crashed => true)
      // In terms of the log and the disk alone:
      ensures var mayCall := MayCall(env, old(Current()), now, writersStopped, confirmed, old(locked));
        IsRetirementAnswer(env, old(Current()), Current(), now, mayCall, r)
    {
      actions := [];
      if now < 0 {
        return Threw(InvalidInput), [];
      }
      if !writersStopped || !confirmed {
        return Threw(ConfirmationMissing), [];
      }
      if locked {
        return Threw(RequestLocked), [];
      }
      locked := true;
      var read := ReadState(env.hash, log);
      if read.Error? || read.value.activated.None? {
        locked := false;
        return Threw(if read.Error? then LogUnreadable else NotActivated), [];
      }
      ghost var start := Current();
      var step, left, state;
      step, left, state, actions := RetireCopies(read.value, now, ids, power, lost);
      if step.Interrupted? {
        return Crashed, actions;
      }
      if step.Stopped? {
        locked := false;
        CallIsAnswered(env, start, now, ids, Threw(step.failure));
        return Threw(step.failure), actions;
      }
      ghost var middle, more := Current(), [];
      var interrupted;
      interrupted, more := CompleteRequest(state, now, ids, left);
      RunConcat(env, start, actions, middle, more, Current());
      actions := actions + more;
      if interrupted {
        return Crashed, actions;
      }
      locked := false;
      read := ReadState(env.hash, log);
      CallIsAnswered(env, start, now, ids, Returned(read.value));
      return Returned(read.value), actions;
    }
  }
}
