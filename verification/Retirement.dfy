// One uninterrupted retirement call as a function on worlds, and crash recovery: from every point a
// crashed retirement can leave behind, running it again past every deadline ends in the same place.
module Retirement {
  import opened Wrappers
  import opened Paths
  import opened AuditLog
  import opened Lifecycle

  datatype Failure =
    | RequestLocked
    | ConfirmationMissing
    | InvalidInput
    | RequestExists
    | LogUnreadable
    | TargetRejected
    | NotActivated
    | CopyDisappeared(copyId: string)
    | CopyChanged(copyId: string)

  datatype Outcome = Outcome(world: World, failure: Option<Failure>)

  // `readState` right after an append: the call goes on only when the log is still accepted.
  function Reread(w: World): Outcome {
    Outcome(w, if Replay(w.log).Ok? then None else Some(LogUnreadable))
  }

  // `rmSync` of the root, when it still exists.
  function Emptied(w: World, copy: DataCopy): World {
    w.(tree := if copy.rootDir in w.tree then w.tree - PathsUnder(w.tree, copy.rootDir) else w.tree)
  }

  // Remove what is left of a copy, then record its retirement.
  function FinishCopy(env: Env, w: World, now: int, ids: nat -> string, copy: DataCopy): Outcome {
    Reread(Append(env, Emptied(w, copy), ids(|w.log|), now, CopyRetired(copy.copyId)))
  }

  // One iteration of the retirement loop.
  function RetireCopy(env: Env, w: World, now: int, ids: nat -> string, copy: DataCopy): Outcome {
    match Replay(w.log)
    case Error(_) => Outcome(w, Some(LogUnreadable))
    case Ok(s) =>
      if copy.retireAfter > now || copy.copyId in s.retired then Outcome(w, None)
      else if copy.copyId in s.started then FinishCopy(env, w, now, ids, copy)
      else if copy.rootDir !in w.tree then Outcome(w, Some(CopyDisappeared(copy.copyId)))
      else if FingerprintAt(env, w.tree, copy.rootDir) != copy.treeFingerprint then
        Outcome(w, Some(CopyChanged(copy.copyId)))
      else
        var intent := Reread(Append(env, w, ids(|w.log|), now, RetirementStarted(copy.copyId, copy.treeFingerprint)));
        if intent.failure.Some? then intent else FinishCopy(env, intent.world, now, ids, copy)
  }

  // A copy that still carries its registered fingerprint: its intent is recorded, then it is finished.
  lemma RetireCopyStarts(env: Env, w: World, now: int, ids: nat -> string, copy: DataCopy, a: Action)
    requires Sound(env, w) && a == StartRetirement(ids(|w.log|), now, copy) && Enabled(env, w, a)
    ensures Sound(env, Next(env, w, a)) && Replay(w.log).Ok?
    ensures Replay(Next(env, w, a).log) ==
      Apply(Replay(w.log).value, RetirementStarted(copy.copyId, copy.treeFingerprint))
    ensures Replay(Next(env, w, a).log).Ok?
    ensures RetireCopy(env, w, now, ids, copy) == FinishCopy(env, Next(env, w, a), now, ids, copy)
  {
    EnabledEventApplies(env, w, a);
    StepKeepsSound(env, w, a);
  }

  function RetireLoop(env: Env, w: World, now: int, ids: nat -> string, copies: seq<DataCopy>): Outcome
    decreases |copies|
  {
    if copies == [] then Outcome(w, None)
    else
      var head := RetireCopy(env, w, now, ids, copies[0]);
      if head.failure.Some? then head else RetireLoop(env, head.world, now, ids, copies[1..])
  }

  function CompleteIfDone(env: Env, w: World, now: int, ids: nat -> string): Outcome {
    match Replay(w.log)
    case Error(_) => Outcome(w, Some(LogUnreadable))
    case Ok(s) =>
      if !s.completed && AllRetired(s.copies, s.retired)
      then Reread(Append(env, w, ids(|w.log|), now, RequestCompleted))
      else Outcome(w, None)
  }

  // `retireDueLocalRuntimeTownParticipantDataCopies` without a crash.
  function RetireAll(env: Env, w: World, now: int, ids: nat -> string): Outcome {
    if !Chained(env.hash, w.log) || Replay(w.log).Error? then Outcome(w, Some(LogUnreadable))
    else
      var s := Replay(w.log).value;
      if s.activated.None? then Outcome(w, Some(NotActivated))
      else
        var loop := RetireLoop(env, w, now, ids, s.copies);
        if loop.failure.Some? then loop else CompleteIfDone(env, loop.world, now, ids)
  }

  // ---------- recovery ----------

  // Copies without an intent are intact; a started copy whose root is gone has nothing left below it;
  // a retired copy is gone.
  predicate Intact(env: Env, tree: Tree, s: State, copy: DataCopy) {
    && (copy.copyId !in s.started ==>
         copy.rootDir in tree && FingerprintAt(env, tree, copy.rootDir) == copy.treeFingerprint)
    && (copy.copyId in s.started && copy.rootDir !in tree ==> PathsUnder(tree, copy.rootDir) == {})
    && (copy.copyId in s.retired ==> PathsUnder(tree, copy.rootDir) == {})
  }

  // The worlds between activation and completion: the state right after activation is one of them, and
  // so is every state a crash can leave (RetirementStepKeepsReady).
  predicate Ready(env: Env, w: World) {
    && w.log != [] && Sound(env, w)
    && Replay(w.log).value.activated.Some?
    && (forall copy :: copy in Replay(w.log).value.copies ==> Intact(env, w.tree, Replay(w.log).value, copy))
  }

  // What is outside every registered copy.
  function Cleared(tree: Tree, copies: seq<DataCopy>): Tree {
    map path | path in tree && (forall copy :: copy in copies ==> !IsSameOrNested(path, copy.rootDir)) :: tree[path]
  }

  function Copies(w: World): seq<DataCopy> {
    match Replay(w.log)
    case Ok(s) => s.copies
    case Error(_) => []
  }

  predicate IsRetirement(a: Action) {
    a.StartRetirement? || a.RemovePaths? || a.FinishRetirement? || a.Complete?
  }

  lemma RemovalLeavesOthers(tree: Tree, root: string, other: string, paths: set<string>)
    requires Disjoint(root, other) && paths <= PathsUnder(tree, root)
    ensures Subtree(tree - paths, other) == Subtree(tree, other)
    ensures PathsUnder(tree - paths, other) == PathsUnder(tree, other)
  {
    forall path | path in tree && IsSameOrNested(path, other) ensures path !in paths {
      if path in paths {
        SharedPathMeansNested(path, root, other);
      }
    }
    assert Subtree(tree - paths, other) == Subtree(tree, other);
    assert PathsUnder(tree - paths, other) == PathsUnder(tree, other);
  }

  lemma RemovalKeepsIntact(env: Env, w: World, a: Action)
    requires Ready(env, w) && a.RemovePaths? && Enabled(env, w, a)
    ensures Ready(env, Next(env, w, a))
    ensures Cleared(Next(env, w, a).tree, Copies(w)) == Cleared(w.tree, Copies(w))
  {
    var s := Replay(w.log).value;
    var tree := w.tree - a.paths;
    forall copy | copy in s.copies ensures Intact(env, tree, s, copy) {
      assert Intact(env, w.tree, s, copy);
      if copy != a.copy {
        OtherCopyIsApart(env, s, a.copy, copy);
        RemovalLeavesOthers(w.tree, a.copy.rootDir, copy.rootDir, a.paths);
      } else {
        assert PathsUnder(tree, copy.rootDir) <= PathsUnder(w.tree, copy.rootDir) - a.paths;
        if copy.rootDir in w.tree {
          assert copy.rootDir in PathsUnder(w.tree, copy.rootDir);
        }
      }
    }
    assert forall path :: path in a.paths ==> IsSameOrNested(path, a.copy.rootDir);
  }

  // Every retirement action keeps a world ready to be resumed, and keeps what it will end in.
  lemma RetirementStepKeepsReady(env: Env, w: World, a: Action)
    requires Ready(env, w) && IsRetirement(a) && Enabled(env, w, a)
    ensures Ready(env, Next(env, w, a)) && Copies(Next(env, w, a)) == Copies(w)
    ensures Cleared(Next(env, w, a).tree, Copies(w)) == Cleared(w.tree, Copies(w))
  {
    StepKeepsSound(env, w, a);
    if a.RemovePaths? {
      RemovalKeepsIntact(env, w, a);
    } else {
      EnabledEventApplies(env, w, a);
      var s, t := Replay(w.log).value, Replay(Next(env, w, a).log).value;
      forall copy | copy in t.copies ensures Intact(env, w.tree, t, copy) {
        assert Intact(env, w.tree, s, copy);
        if !a.Complete? && copy != a.copy {
          OtherCopyIsApart(env, s, a.copy, copy);
        }
      }
    }
  }

  // The world left by a retirement that crashed after any number of actions.
  lemma {:induction false} CrashedRetirementIsReady(env: Env, w: World, actions: seq<Action>)
    requires Ready(env, w) && Legal(env, w, actions)
    requires forall i :: 0 <= i < |actions| ==> IsRetirement(actions[i])
    ensures Ready(env, After(env, w, actions)) && Copies(After(env, w, actions)) == Copies(w)
    ensures Cleared(After(env, w, actions).tree, Copies(w)) == Cleared(w.tree, Copies(w))
  {
    if actions != [] {
      var init := actions[..|actions| - 1];
      CrashedRetirementIsReady(env, w, init);
      RetirementStepKeepsReady(env, After(env, w, init), actions[|actions| - 1]);
    }
  }

  // ---------- the uninterrupted call on a ready world ----------

  // Still ready, for the same copies and the same final tree, with the given copies retired.
  predicate Advanced(env: Env, w: World, next: World, retired: set<string>)
    requires Replay(w.log).Ok?
  {
    && Ready(env, next) && Copies(next) == Copies(w)
    && Cleared(next.tree, Copies(w)) == Cleared(w.tree, Copies(w))
    && Replay(next.log).value.retired == Replay(w.log).value.retired + retired
  }

  lemma AdvancedTwice(env: Env, w0: World, w1: World, w2: World, first: set<string>, second: set<string>)
    requires Replay(w0.log).Ok? && Advanced(env, w0, w1, first) && Advanced(env, w1, w2, second)
    ensures Advanced(env, w0, w2, first + second)
  {
  }

  lemma EmptiedIsReady(env: Env, w: World, now: int, copy: DataCopy)
    requires Ready(env, w)
    requires Due(Replay(w.log).value, now, copy) && copy.copyId in Replay(w.log).value.started
    ensures Ready(env, Emptied(w, copy)) && copy.rootDir !in Emptied(w, copy).tree
    ensures Cleared(Emptied(w, copy).tree, Copies(w)) == Cleared(w.tree, Copies(w))
  {
    if copy.rootDir in w.tree {
      var a := RemovePaths(now, copy, PathsUnder(w.tree, copy.rootDir));
      RetirementStepKeepsReady(env, w, a);
      assert copy.rootDir in a.paths && Emptied(w, copy) == Next(env, w, a);
    } else {
      assert Emptied(w, copy) == w;
    }
  }

  // Finishing a copy is the last retirement action on it, taken once its tree is gone.
  lemma FinishCopyIsStep(env: Env, w: World, now: int, ids: nat -> string, copy: DataCopy, b: Action)
    requires w.log != [] && Sound(env, Emptied(w, copy)) && copy.rootDir !in Emptied(w, copy).tree
    requires b == FinishRetirement(ids(|w.log|), now, copy)
    requires Replay(w.log).Ok? && Replay(w.log).value.activated.Some?
    requires Due(Replay(w.log).value, now, copy) && copy.copyId in Replay(w.log).value.started
    ensures Enabled(env, Emptied(w, copy), b)
    ensures FinishCopy(env, w, now, ids, copy) == Outcome(Next(env, Emptied(w, copy), b), None)
    ensures Replay(Next(env, Emptied(w, copy), b).log) == Apply(Replay(w.log).value, CopyRetired(copy.copyId))
    ensures Replay(Next(env, Emptied(w, copy), b).log).Ok?
  {
    EnabledEventApplies(env, Emptied(w, copy), b);
  }

  lemma FinishCopyIsReady(env: Env, w: World, now: int, ids: nat -> string, copy: DataCopy)
    requires Ready(env, w)
    requires Due(Replay(w.log).value, now, copy) && copy.copyId in Replay(w.log).value.started
    ensures var out := FinishCopy(env, w, now, ids, copy);
      out.failure.None? && Advanced(env, w, out.world, {copy.copyId})
  {
    var b := FinishRetirement(ids(|w.log|), now, copy);
    EmptiedIsReady(env, w, now, copy);
    FinishCopyIsStep(env, w, now, ids, copy, b);
    RetirementStepKeepsReady(env, Emptied(w, copy), b);
  }

  lemma RetireCopyIsReady(env: Env, w: World, now: int, ids: nat -> string, copy: DataCopy)
    requires Ready(env, w) && copy in Copies(w) && copy.retireAfter <= now
    ensures var out := RetireCopy(env, w, now, ids, copy);
      out.failure.None? && Advanced(env, w, out.world, {copy.copyId})
  {
    var s := Replay(w.log).value;
    ReplayIsConsistent(w.log);
    if copy.copyId in s.retired {
      assert s.retired == s.retired + {copy.copyId};
    } else if copy.copyId in s.started {
      FinishCopyIsReady(env, w, now, ids, copy);
    } else {
      assert Intact(env, w.tree, s, copy);
      var a := StartRetirement(ids(|w.log|), now, copy);
      RetirementStepKeepsReady(env, w, a);
      EnabledEventApplies(env, w, a);
      FinishCopyIsReady(env, Next(env, w, a), now, ids, copy);
    }
  }

  lemma {:induction false} RetireLoopIsReady(env: Env, w: World, now: int, ids: nat -> string, copies: seq<DataCopy>)
    requires Ready(env, w)
    requires forall copy :: copy in copies ==> copy in Copies(w) && copy.retireAfter <= now
    ensures var out := RetireLoop(env, w, now, ids, copies);
      out.failure.None? && Advanced(env, w, out.world, CopyIds(copies))
    decreases |copies|
  {
    if copies == [] {
      assert CopyIds(copies) == {};
    } else {
      var head, tail := RetireCopy(env, w, now, ids, copies[0]).world, copies[1..];
      RetireCopyIsReady(env, w, now, ids, copies[0]);
      RetireLoopIsReady(env, head, now, ids, tail);
      AdvancedTwice(env, w, head, RetireLoop(env, head, now, ids, tail).world, {copies[0].copyId}, CopyIds(tail));
      CopyIdsOfHeadAndTail(copies);
    }
  }

  lemma CopyIdsOfHeadAndTail(copies: seq<DataCopy>)
    requires copies != []
    ensures CopyIds(copies) == {copies[0].copyId} + CopyIds(copies[1..])
  {
    assert forall copy :: copy in copies <==> copy == copies[0] || copy in copies[1..];
  }

  lemma ReadyAndRetiredIsCleared(env: Env, w: World)
    requires Ready(env, w) && AllRetired(Copies(w), Replay(w.log).value.retired)
    ensures w.tree == Cleared(w.tree, Copies(w))
  {
    forall path, copy | path in w.tree && copy in Copies(w) ensures !IsSameOrNested(path, copy.rootDir) {
      assert Intact(env, w.tree, Replay(w.log).value, copy);
      assert path !in PathsUnder(w.tree, copy.rootDir);
    }
  }

  lemma CompletionIsReady(env: Env, w: World, now: int, ids: nat -> string)
    requires Ready(env, w) && Replay(w.log).value.retired == CopyIds(Copies(w))
    ensures var out := CompleteIfDone(env, w, now, ids);
      && out.failure.None? && Ready(env, out.world) && Copies(out.world) == Copies(w)
      && out.world.tree == w.tree
      && Replay(out.world.log).value.retired == CopyIds(Copies(w))
      && Replay(out.world.log).value.completed
  {
    var s := Replay(w.log).value;
    assert AllRetired(s.copies, s.retired);
    if !s.completed {
      CompletionStep(env, w, Complete(ids(|w.log|), now));
    }
  }

  lemma CompletionStep(env: Env, w: World, a: Action)
    requires Ready(env, w) && Replay(w.log).value.retired == CopyIds(Copies(w))
    requires a.Complete? && Enabled(env, w, a)
    ensures Ready(env, Next(env, w, a)) && Copies(Next(env, w, a)) == Copies(w) && Next(env, w, a).tree == w.tree
    ensures Replay(Next(env, w, a).log).value == Replay(w.log).value.(completed := true)
  {
    EnabledEventApplies(env, w, a);
    RetirementStepKeepsReady(env, w, a);
  }

  // Past every deadline, a ready world retires completely: no failure, exactly the paths outside the
  // registered copies remain, every copy is retired and the request is completed.
  lemma RetireAllCompletes(env: Env, w: World, now: int, ids: nat -> string)
    requires Ready(env, w)
    requires forall copy :: copy in Copies(w) ==> copy.retireAfter <= now
    ensures var out := RetireAll(env, w, now, ids);
      && out.failure.None? && Ready(env, out.world) && Copies(out.world) == Copies(w)
      && out.world.tree == Cleared(w.tree, Copies(w))
      && Replay(out.world.log).value.retired == CopyIds(Copies(w))
      && Replay(out.world.log).value.started == CopyIds(Copies(w))
      && StatusOf(Replay(out.world.log).value) == Completed
  {
    RetireLoopIsReady(env, w, now, ids, Copies(w));
    ReplayIsConsistent(w.log);
    var loop := RetireLoop(env, w, now, ids, Copies(w)).world;
    assert Replay(loop.log).value.retired == CopyIds(Copies(w)) by {
      assert Consistent(Replay(w.log).value);
    }
    CompletionIsReady(env, loop, now, ids);
    var out := CompleteIfDone(env, loop, now, ids).world;
    ReadyAndRetiredIsCleared(env, out);
    ReplayIsConsistent(out.log);
  }

  // The request is completed with every copy retired, by exactly one intent and one completion record
  // for each, and one final record.
  predicate RetiredOnce(log: seq<Record>, copies: seq<DataCopy>) {
    && Replay(log).Ok? && StatusOf(Replay(log).value) == Completed && Replay(log).value.retired == CopyIds(copies)
    && (forall copy :: copy in copies ==>
         && Count(log, RetirementStarted(copy.copyId, FingerprintOf(Replay(log).value, copy.copyId))) == 1
         && Count(log, CopyRetired(copy.copyId)) == 1)
    && Count(log, RequestCompleted) == 1
  }

  lemma CompletedRetiresOnce(log: seq<Record>, copies: seq<DataCopy>)
    requires Replay(log).Ok? && StatusOf(Replay(log).value) == Completed && Replay(log).value.retired == CopyIds(copies)
    ensures RetiredOnce(log, copies)
  {
    EachRecordOnce(log, "");
    ReplayIsConsistent(log);
    forall copy | copy in copies
      ensures Count(log, RetirementStarted(copy.copyId, FingerprintOf(Replay(log).value, copy.copyId))) == 1
      ensures Count(log, CopyRetired(copy.copyId)) == 1
    {
      EachRecordOnce(log, copy.copyId);
    }
  }

  // Crash recovery converges: whatever retirement actions ran before the crash, the re-run ends with
  // the same file tree, retired set and status as one uninterrupted call from the start, and its log
  // holds every started and retired record exactly once.
  lemma RecoveryConverges(
    env: Env, w: World, actions: seq<Action>, now: int, ids: nat -> string, idsAfterCrash: nat -> string)
    requires Ready(env, w) && Legal(env, w, actions)
    requires forall i :: 0 <= i < |actions| ==> IsRetirement(actions[i])
    requires forall copy :: copy in Copies(w) ==> copy.retireAfter <= now
    ensures var straight := RetireAll(env, w, now, ids);
      var recovered := RetireAll(env, After(env, w, actions), now, idsAfterCrash);
      && straight.failure.None? && recovered.failure.None?
      && recovered.world.tree == straight.world.tree == Cleared(w.tree, Copies(w))
      && RetiredOnce(straight.world.log, Copies(w)) && RetiredOnce(recovered.world.log, Copies(w))
  {
    CrashedRetirementIsReady(env, w, actions);
    RetireAllCompletes(env, w, now, ids);
    RetireAllCompletes(env, After(env, w, actions), now, idsAfterCrash);
    CompletedRetiresOnce(RetireAll(env, w, now, ids).world.log, Copies(w));
    CompletedRetiresOnce(RetireAll(env, After(env, w, actions), now, idsAfterCrash).world.log, Copies(w));
  }

  // ---------- when a call is refused ----------

  // The loop passes over the copy, resumes it, or finds the tree that was registered.
  predicate Retirable(env: Env, w: World, now: int, copy: DataCopy)
    requires Replay(w.log).Ok?
  {
    RetirableIn(env, w.tree, Replay(w.log).value, now, copy)
  }

  predicate RetirableIn(env: Env, tree: Tree, s: State, now: int, copy: DataCopy) {
    || copy.retireAfter > now || copy.copyId in s.retired || copy.copyId in s.started
    || (copy.rootDir in tree && FingerprintAt(env, tree, copy.rootDir) == copy.treeFingerprint)
  }

  predicate IsActivated(env: Env, w: World) {
    w.log != [] && Sound(env, w) && Replay(w.log).value.activated.Some?
  }

  // A retirement action on one copy does not affect whether another one can be retired.
  lemma RemovalKeepsRetirable(
    env: Env, tree: Tree, s: State, root: string, paths: set<string>, now: int, other: DataCopy)
    requires RemovalStep(tree, root, paths) && Disjoint(root, other.rootDir)
    ensures RetirableIn(env, tree - paths, s, now, other) == RetirableIn(env, tree, s, now, other)
  {
    RemovalLeavesOthers(tree, root, other.rootDir, paths);
    assert other.rootDir in tree <==> other.rootDir in PathsUnder(tree, other.rootDir);
  }

  lemma RecordKeepsRetirable(env: Env, tree: Tree, s: State, event: Event, now: int, other: DataCopy)
    requires Apply(s, event).Ok?
    requires (event.RetirementStarted? && event.copyId != other.copyId)
      || (event.CopyRetired? && event.copyId != other.copyId)
    ensures RetirableIn(env, tree, Apply(s, event).value, now, other) == RetirableIn(env, tree, s, now, other)
  {
  }

  lemma StepKeepsActivated(env: Env, w: World, a: Action)
    requires IsActivated(env, w) && Enabled(env, w, a) && IsRetirement(a) && !a.Complete?
    ensures IsActivated(env, Next(env, w, a)) && Copies(Next(env, w, a)) == Copies(w)
  {
    StepKeepsSound(env, w, a);
    if !a.RemovePaths? {
      EnabledEventApplies(env, w, a);
    }
  }

  lemma StepKeepsRetirable(env: Env, w: World, a: Action, now: int, other: DataCopy)
    requires IsActivated(env, w) && Enabled(env, w, a) && IsRetirement(a) && !a.Complete?
    requires other in Copies(w) && other != a.copy && IsActivated(env, Next(env, w, a))
    ensures Retirable(env, Next(env, w, a), now, other) == Retirable(env, w, now, other)
  {
    OtherCopyIsApart(env, Replay(w.log).value, a.copy, other);
    if a.RemovePaths? {
      RemovalKeepsRetirable(env, w.tree, Replay(w.log).value, a.copy.rootDir, a.paths, now, other);
    } else {
      EnabledEventApplies(env, w, a);
      RecordKeepsRetirable(env, w.tree, Replay(w.log).value, EventOf(env, w.tree, a).value, now, other);
    }
  }

  // Same copies, still activated, and every other copy as retirable as before.
  ghost predicate Independent(env: Env, w: World, next: World, now: int, copy: DataCopy) {
    && IsActivated(env, w) && IsActivated(env, next) && Copies(next) == Copies(w)
    && (forall other :: other in Copies(w) && other != copy ==>
         Retirable(env, next, now, other) == Retirable(env, w, now, other))
  }

  lemma StepIsIndependent(env: Env, w: World, a: Action, now: int)
    requires IsActivated(env, w) && Enabled(env, w, a) && IsRetirement(a) && !a.Complete?
    ensures Independent(env, w, Next(env, w, a), now, a.copy)
  {
    StepKeepsActivated(env, w, a);
    forall other | other in Copies(w) && other != a.copy
      ensures Retirable(env, Next(env, w, a), now, other) == Retirable(env, w, now, other)
    {
      StepKeepsRetirable(env, w, a, now, other);
    }
  }

  lemma FinishCopyIsIndependent(env: Env, w: World, now: int, ids: nat -> string, copy: DataCopy)
    requires IsActivated(env, w)
    requires Due(Replay(w.log).value, now, copy) && copy.copyId in Replay(w.log).value.started
    ensures var out := FinishCopy(env, w, now, ids, copy);
      out.failure.None? && Independent(env, w, out.world, now, copy) && Retirable(env, out.world, now, copy)
  {
    var emptied := Emptied(w, copy);
    if copy.rootDir in w.tree {
      var a := RemovePaths(now, copy, PathsUnder(w.tree, copy.rootDir));
      StepIsIndependent(env, w, a, now);
      assert emptied == Next(env, w, a) && copy.rootDir in a.paths;
    }
    var b := FinishRetirement(ids(|w.log|), now, copy);
    FinishCopyIsStep(env, w, now, ids, copy, b);
    StepIsIndependent(env, emptied, b, now);
  }

  lemma IndependentTwice(env: Env, w: World, middle: World, next: World, now: int, copy: DataCopy)
    requires Independent(env, w, middle, now, copy) && Independent(env, middle, next, now, copy)
    ensures Independent(env, w, next, now, copy)
  {
  }

  lemma StartCopyIsIndependent(env: Env, w: World, now: int, ids: nat -> string, copy: DataCopy, a: Action)
    requires IsActivated(env, w) && a == StartRetirement(ids(|w.log|), now, copy) && Enabled(env, w, a)
    ensures var out := RetireCopy(env, w, now, ids, copy);
      out.failure.None? && Independent(env, w, out.world, now, copy) && Retirable(env, out.world, now, copy)
  {
    var middle := Next(env, w, a);
    RetireCopyStarts(env, w, now, ids, copy, a);
    StepIsIndependent(env, w, a, now);
    FinishCopyIsIndependent(env, middle, now, ids, copy);
    IndependentTwice(env, w, middle, FinishCopy(env, middle, now, ids, copy).world, now, copy);
  }

  lemma RetireCopyIsIndependent(env: Env, w: World, now: int, ids: nat -> string, copy: DataCopy)
    requires IsActivated(env, w) && copy in Copies(w)
    ensures var out := RetireCopy(env, w, now, ids, copy);
      && (out.failure.None? <==> Retirable(env, w, now, copy))
      && (out.failure.None? ==> Independent(env, w, out.world, now, copy) && Retirable(env, out.world, now, copy))
  {
    var s := Replay(w.log).value;
    if copy.retireAfter <= now && copy.copyId !in s.retired && Retirable(env, w, now, copy) {
      if copy.copyId in s.started {
        FinishCopyIsIndependent(env, w, now, ids, copy);
      } else {
        StartCopyIsIndependent(env, w, now, ids, copy, StartRetirement(ids(|w.log|), now, copy));
      }
    }
  }

  lemma {:induction false} RetireLoopSucceedsIff(
    env: Env, w: World, now: int, ids: nat -> string, copies: seq<DataCopy>)
    requires IsActivated(env, w)
    requires forall copy :: copy in copies ==> copy in Copies(w)
    ensures var out := RetireLoop(env, w, now, ids, copies);
      && (out.failure.None? <==> forall copy :: copy in copies ==> Retirable(env, w, now, copy))
      && (out.failure.None? ==> IsActivated(env, out.world))
    decreases |copies|
  {
    if copies != [] {
      var head := RetireCopy(env, w, now, ids, copies[0]);
      RetireCopyIsIndependent(env, w, now, ids, copies[0]);
      assert forall copy :: copy in copies <==> copy == copies[0] || copy in copies[1..];
      if head.failure.None? {
        RetireLoopSucceedsIff(env, head.world, now, ids, copies[1..]);
      }
    }
  }

  // A call on an activated request succeeds exactly when every due copy without an intent still
  // carries its registered fingerprint; a missing or changed copy stops it.
  lemma RetireAllSucceedsIff(env: Env, w: World, now: int, ids: nat -> string)
    requires IsActivated(env, w)
    ensures RetireAll(env, w, now, ids).failure.None? <==>
      forall copy :: copy in Copies(w) ==> Retirable(env, w, now, copy)
  {
    RetireLoopSucceedsIff(env, w, now, ids, Copies(w));
    var loop := RetireLoop(env, w, now, ids, Copies(w));
    if loop.failure.None? {
      var s := Replay(loop.world.log).value;
      if !s.completed && AllRetired(s.copies, s.retired) {
        EnabledEventApplies(env, loop.world, Complete(ids(|loop.world.log|), now));
      }
    }
  }
}
