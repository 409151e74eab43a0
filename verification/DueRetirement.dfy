// What one retirement call does when some copies are due and others are not: exactly the due ones go.
module DueRetirement {
  import opened Wrappers
  import opened Paths
  import opened AuditLog
  import opened Lifecycle
  import opened Retirement

  // Before the call and after it, on the log and on the disk. A copy whose root was already gone has
  // nothing left to delete.
  ghost predicate RetiredWhatIsDue(w: World, next: World, now: int) {
    && Replay(w.log).Ok? && Replay(next.log).Ok? && w.log <= next.log
    && var s, t := Replay(w.log).value, Replay(next.log).value;
      && t.copies == s.copies && t.prepared == s.prepared && t.activated == s.activated
      && (forall copy :: copy in s.copies && copy.retireAfter <= now ==>
           copy.copyId in t.started && copy.copyId in t.retired
           && (copy.copyId !in s.retired ==> IsGone(w.tree, next.tree, copy.rootDir)))
      && (forall copy :: copy in s.copies && copy.retireAfter > now ==>
           (copy.copyId in t.started <==> copy.copyId in s.started)
           && (copy.copyId in t.retired <==> copy.copyId in s.retired)
           && Subtree(next.tree, copy.rootDir) == Subtree(w.tree, copy.rootDir))
      && (forall path :: path in next.tree ==> path in w.tree && next.tree[path] == w.tree[path])
      && (forall path :: path in w.tree && path !in next.tree ==> exists copy :: IsDueAt(s, now, copy, path))
      && (t.completed <==> forall copy :: copy in s.copies ==> copy.copyId in t.retired)
      && AllAt(w.log, next.log, now)
  }

  // Nothing is left at the root or below it, if the tree had the root itself or nothing below it.
  predicate IsGone(before: Tree, after: Tree, root: string) {
    && root !in after
    && (root in before || PathsUnder(before, root) == {} ==> PathsUnder(after, root) == {})
  }

  predicate IsDueAt(s: State, now: int, copy: DataCopy, path: string) {
    copy in s.copies && copy.retireAfter <= now && copy.copyId !in s.retired && IsSameOrNested(path, copy.rootDir)
  }

  // The records that were added carry the time of the call.
  predicate AllAt(log: seq<Record>, longer: seq<Record>, now: int) {
    forall i :: |log| <= i < |longer| ==> longer[i].body.occurredAt == now
  }

  // ---------- the effect of retiring a list of copies ----------

  predicate Takes(tree: Tree, s: State, now: int, copy: DataCopy, path: string) {
    && copy.retireAfter <= now && copy.copyId !in s.retired
    && copy.rootDir in tree && IsSameOrNested(path, copy.rootDir)
  }

  function Left(tree: Tree, s: State, now: int, done: seq<DataCopy>): Tree {
    map path | path in tree && (forall copy :: copy in done ==> !Takes(tree, s, now, copy, path)) :: tree[path]
  }

  function DueIds(now: int, done: seq<DataCopy>): set<string> {
    set copy | copy in done && copy.retireAfter <= now :: copy.copyId
  }

  predicate Retires(env: Env, w: World, next: World, now: int, done: seq<DataCopy>) {
    && IsActivated(env, w) && IsActivated(env, next) && w.log <= next.log && AllAt(w.log, next.log, now)
    && var s, t := Replay(w.log).value, Replay(next.log).value;
      && t == s.(started := s.started + DueIds(now, done), retired := s.retired + DueIds(now, done))
      && next.tree == Left(w.tree, s, now, done)
  }

  lemma {:induction false} NothingDue(env: Env, w: World, now: int, done: seq<DataCopy>)
    requires IsActivated(env, w)
    requires forall copy :: copy in done ==>
      copy.retireAfter > now || (copy in Copies(w) && copy.copyId in Replay(w.log).value.retired)
    ensures Retires(env, w, w, now, done)
  {
    var s := Replay(w.log).value;
    ReplayIsConsistent(w.log);
    assert s.started + DueIds(now, done) == s.started && s.retired + DueIds(now, done) == s.retired;
    assert Left(w.tree, s, now, done) == w.tree;
  }

  lemma {:induction false} FinishRetires(env: Env, w: World, now: int, ids: nat -> string, copy: DataCopy)
    requires IsActivated(env, w)
    requires Due(Replay(w.log).value, now, copy) && copy.copyId in Replay(w.log).value.started
    ensures var out := FinishCopy(env, w, now, ids, copy);
      out.failure.None? && Retires(env, w, out.world, now, [copy])
  {
    FinishCopyIsIndependent(env, w, now, ids, copy);
    var emptied := Emptied(w, copy);
    if copy.rootDir in w.tree {
      var a := RemovePaths(now, copy, PathsUnder(w.tree, copy.rootDir));
      StepKeepsActivated(env, w, a);
      assert emptied == Next(env, w, a) && copy.rootDir in a.paths;
    }
    FinishCopyIsStep(env, w, now, ids, copy, FinishRetirement(ids(|w.log|), now, copy));
    var s := Replay(w.log).value;
    assert DueIds(now, [copy]) == {copy.copyId};
    assert s.started + {copy.copyId} == s.started;
    EmptiedIsLeft(w, now, copy);
  }

  lemma {:induction false} EmptiedIsLeft(w: World, now: int, copy: DataCopy)
    requires Replay(w.log).Ok? && copy.retireAfter <= now && copy.copyId !in Replay(w.log).value.retired
    ensures Emptied(w, copy).tree == Left(w.tree, Replay(w.log).value, now, [copy])
  {
    var s := Replay(w.log).value;
    forall path ensures path in Emptied(w, copy).tree <==> path in Left(w.tree, s, now, [copy]) {
      assert copy in [copy];
      assert path in Left(w.tree, s, now, [copy]) <==> path in w.tree && !Takes(w.tree, s, now, copy, path);
    }
  }

  lemma {:induction false} StartRetires(env: Env, w: World, now: int, ids: nat -> string, copy: DataCopy, a: Action)
    requires IsActivated(env, w) && a == StartRetirement(ids(|w.log|), now, copy) && Enabled(env, w, a)
    ensures Retires(env, w, RetireCopy(env, w, now, ids, copy).world, now, [copy])
  {
    RetireCopyStarts(env, w, now, ids, copy, a);
    StepKeepsActivated(env, w, a);
    var middle := Next(env, w, a);
    FinishRetires(env, middle, now, ids, copy);
    LeftIgnoresStarted(w.tree, Replay(w.log).value, Replay(middle.log).value, now, [copy]);
    StartedThenRetired(env, w, middle, FinishCopy(env, middle, now, ids, copy).world, now, copy);
  }

  lemma {:induction false} StartedThenRetired(
    env: Env, w: World, middle: World, next: World, now: int, copy: DataCopy)
    requires IsActivated(env, w) && Retires(env, middle, next, now, [copy])
    requires copy.retireAfter <= now && w.log <= middle.log && AllAt(w.log, middle.log, now)
    requires var s := Replay(w.log).value;
      && Replay(middle.log).value == s.(started := s.started + {copy.copyId})
      && Left(middle.tree, Replay(middle.log).value, now, [copy]) == Left(w.tree, s, now, [copy])
    ensures Retires(env, w, next, now, [copy])
  {
    var s := Replay(w.log).value;
    assert DueIds(now, [copy]) == {copy.copyId};
    assert s.started + {copy.copyId} + {copy.copyId} == s.started + {copy.copyId};
  }

  lemma {:induction false} LeftIgnoresStarted(tree: Tree, s: State, t: State, now: int, done: seq<DataCopy>)
    requires s.retired == t.retired
    ensures Left(tree, s, now, done) == Left(tree, t, now, done)
  {
    forall copy, path ensures Takes(tree, s, now, copy, path) == Takes(tree, t, now, copy, path) {
    }
  }

  // What stops a call at a copy.
  function Obstacle(tree: Tree, copy: DataCopy): Failure {
    if copy.rootDir !in tree then CopyDisappeared(copy.copyId) else CopyChanged(copy.copyId)
  }

  lemma {:induction false} RetireCopyRetires(env: Env, w: World, now: int, ids: nat -> string, copy: DataCopy)
    requires IsActivated(env, w) && copy in Copies(w)
    ensures var out := RetireCopy(env, w, now, ids, copy);
      if Retirable(env, w, now, copy) then out.failure.None? && Retires(env, w, out.world, now, [copy])
      else out == Outcome(w, Some(Obstacle(w.tree, copy)))
  {
    var s := Replay(w.log).value;
    RetireCopyIsIndependent(env, w, now, ids, copy);
    if copy.retireAfter > now || copy.copyId in s.retired {
      NothingDue(env, w, now, [copy]);
    } else if copy.copyId in s.started {
      FinishRetires(env, w, now, ids, copy);
    } else if Retirable(env, w, now, copy) {
      StartRetires(env, w, now, ids, copy, StartRetirement(ids(|w.log|), now, copy));
    }
  }

  lemma {:induction false} DueIdsOfBoth(now: int, first: seq<DataCopy>, second: seq<DataCopy>)
    ensures DueIds(now, first + second) == DueIds(now, first) + DueIds(now, second)
  {
    assert forall copy :: copy in first + second <==> copy in first || copy in second;
  }

  // Retiring one copy does not touch the root of another one.
  lemma {:induction false} OtherRootStays(env: Env, w: World, next: World, now: int, copy: DataCopy, other: DataCopy)
    requires Retires(env, w, next, now, [copy]) && copy in Copies(w) && other in Copies(w) && other != copy
    ensures other.rootDir in next.tree <==> other.rootDir in w.tree
    ensures other.copyId in Replay(next.log).value.retired <==> other.copyId in Replay(w.log).value.retired
  {
    var s := Replay(w.log).value;
    OtherCopyIsApart(env, s, copy, other);
    assert !Takes(w.tree, s, now, copy, other.rootDir);
    assert DueIds(now, [copy]) <= {copy.copyId};
  }

  lemma {:induction false} LeftTwice(env: Env, w: World, middle: World, now: int, copy: DataCopy, rest: seq<DataCopy>)
    requires Retires(env, w, middle, now, [copy]) && copy in Copies(w)
    requires forall other :: other in rest ==> other in Copies(w)
    ensures Left(middle.tree, Replay(middle.log).value, now, rest)
         == Left(w.tree, Replay(w.log).value, now, [copy] + rest)
  {
    var s, t := Replay(w.log).value, Replay(middle.log).value;
    forall path | path in w.tree
      ensures path in Left(middle.tree, t, now, rest) <==> path in Left(w.tree, s, now, [copy] + rest)
    {
      forall other | other in rest && path in middle.tree
        ensures Takes(middle.tree, t, now, other, path) == Takes(w.tree, s, now, other, path)
      {
        SameTaken(env, w, middle, now, copy, other, path);
      }
      assert path in middle.tree <==> !Takes(w.tree, s, now, copy, path);
      assert forall other :: other in [copy] + rest <==> other == copy || other in rest;
    }
  }

  lemma {:induction false} SameTaken(
    env: Env, w: World, middle: World, now: int, copy: DataCopy, other: DataCopy, path: string)
    requires Retires(env, w, middle, now, [copy]) && copy in Copies(w) && other in Copies(w)
    requires path in middle.tree
    ensures var s, t := Replay(w.log).value, Replay(middle.log).value;
      Takes(middle.tree, t, now, other, path) == Takes(w.tree, s, now, other, path)
  {
    var s := Replay(w.log).value;
    if other == copy {
      assert copy in [copy];
      assert !Takes(w.tree, s, now, copy, path);
      assert copy.retireAfter <= now ==> copy.copyId in DueIds(now, [copy]);
    } else {
      OtherRootStays(env, w, middle, now, copy, other);
    }
  }

  lemma {:induction false} RetiresBoth(
    env: Env, w: World, middle: World, next: World, now: int, copy: DataCopy, rest: seq<DataCopy>)
    requires Retires(env, w, middle, now, [copy]) && Retires(env, middle, next, now, rest) && copy in Copies(w)
    requires forall other :: other in rest ==> other in Copies(w)
    ensures Retires(env, w, next, now, [copy] + rest)
  {
    DueIdsOfBoth(now, [copy], rest);
    LeftTwice(env, w, middle, now, copy, rest);
    var s, due, more := Replay(w.log).value, DueIds(now, [copy]), DueIds(now, rest);
    assert s.started + due + more == s.started + (due + more) && s.retired + due + more == s.retired + (due + more);
  }

  // ---------- the loop ----------

  // The copies in front of k were retired if due, and copy k stops the loop.
  predicate StopsAt(env: Env, w: World, out: Outcome, now: int, copies: seq<DataCopy>, k: nat)
    requires Replay(w.log).Ok? && k < |copies|
  {
    && Retires(env, w, out.world, now, copies[..k])
    && (forall j :: 0 <= j < k ==> Retirable(env, w, now, copies[j]))
    && !Retirable(env, w, now, copies[k]) && out.failure == Some(Obstacle(w.tree, copies[k]))
  }

  predicate LoopEnds(env: Env, w: World, out: Outcome, now: int, copies: seq<DataCopy>, k: nat)
    requires Replay(w.log).Ok?
  {
    if out.failure.None? then Retires(env, w, out.world, now, copies)
    else k < |copies| && StopsAt(env, w, out, now, copies, k)
  }

  // A call is stopped by one of the registered copies.
  ghost predicate StoppedByCopy(env: Env, w: World, out: Outcome, now: int)
    requires Replay(w.log).Ok?
  {
    exists k: nat :: k < |Copies(w)| && StopsAt(env, w, out, now, Copies(w), k)
  }

  lemma {:induction false} LoopRetires(env: Env, w: World, now: int, ids: nat -> string, copies: seq<DataCopy>)
    returns (k: nat)
    requires IsActivated(env, w) && forall copy :: copy in copies ==> copy in Copies(w)
    ensures LoopEnds(env, w, RetireLoop(env, w, now, ids, copies), now, copies, k)
    decreases |copies|
  {
    k := 0;
    if copies == [] {
      NothingDue(env, w, now, []);
    } else if !Retirable(env, w, now, copies[0]) {
      StopsAtOnce(env, w, now, ids, copies);
    } else {
      var middle := RetireCopy(env, w, now, ids, copies[0]).world;
      RetireCopyRetires(env, w, now, ids, copies[0]);
      SameCopies(env, w, middle, now, [copies[0]]);
      var j := LoopRetires(env, middle, now, ids, copies[1..]);
      LoopGoesOn(env, w, middle, RetireLoop(env, middle, now, ids, copies[1..]), now, ids, copies, j);
      k := j + 1;
    }
  }

  lemma {:induction false} StopsAtOnce(env: Env, w: World, now: int, ids: nat -> string, copies: seq<DataCopy>)
    requires IsActivated(env, w) && copies != [] && copies[0] in Copies(w) && !Retirable(env, w, now, copies[0])
    ensures LoopEnds(env, w, RetireLoop(env, w, now, ids, copies), now, copies, 0)
  {
    RetireCopyRetires(env, w, now, ids, copies[0]);
    NothingDue(env, w, now, copies[..0]);
  }

  lemma {:induction false} LoopGoesOn(
    env: Env, w: World, middle: World, out: Outcome, now: int, ids: nat -> string, copies: seq<DataCopy>, j: nat)
    requires IsActivated(env, w) && copies != [] && forall copy :: copy in copies ==> copy in Copies(w)
    requires middle == RetireCopy(env, w, now, ids, copies[0]).world && Retirable(env, w, now, copies[0])
    requires Retires(env, w, middle, now, [copies[0]]) && LoopEnds(env, middle, out, now, copies[1..], j)
    ensures LoopEnds(env, w, out, now, copies, j + 1)
  {
    assert copies[..1] == [copies[0]] && copies == [copies[0]] + copies[1..];
    if out.failure.None? {
      RetiresBoth(env, w, middle, out.world, now, copies[0], copies[1..]);
    } else {
      StopsLater(env, w, middle, out, now, ids, copies, j);
    }
  }

  lemma {:induction false} SameCopies(env: Env, w: World, next: World, now: int, done: seq<DataCopy>)
    requires Retires(env, w, next, now, done)
    ensures Copies(next) == Copies(w) && IsActivated(env, next)
  {
  }

  lemma {:induction false} StopsLater(
    env: Env, w: World, middle: World, out: Outcome, now: int, ids: nat -> string, copies: seq<DataCopy>, j: nat)
    requires IsActivated(env, w) && (forall copy :: copy in copies ==> copy in Copies(w)) && j + 1 < |copies|
    requires middle == RetireCopy(env, w, now, ids, copies[0]).world && Retirable(env, w, now, copies[0])
    requires Retires(env, w, middle, now, copies[..1]) && StopsAt(env, middle, out, now, copies[1..], j)
    ensures StopsAt(env, w, out, now, copies, j + 1)
  {
    AllSameRetirable(env, w, middle, now, ids, copies);
    FirstOnes(env, w, middle, out.world, now, copies, j);
    SameObstacle(env, w, middle, now, copies, j + 1);
    assert copies[1..][j] == copies[j + 1];
    forall i | 0 <= i < j + 1 ensures Retirable(env, w, now, copies[i]) {
      assert i > 0 ==> Retirable(env, middle, now, copies[1..][i - 1]);
    }
  }

  lemma {:induction false} FirstOnes(
    env: Env, w: World, middle: World, next: World, now: int, copies: seq<DataCopy>, j: nat)
    requires j + 1 < |copies| && forall copy :: copy in copies ==> copy in Copies(w)
    requires Retires(env, w, middle, now, copies[..1]) && Retires(env, middle, next, now, copies[1..][..j])
    ensures Retires(env, w, next, now, copies[..j + 1])
  {
    assert copies[..1] == [copies[0]] && copies[..j + 1] == [copies[0]] + copies[1..][..j];
    RetiresBoth(env, w, middle, next, now, copies[0], copies[1..][..j]);
  }

  lemma {:induction false} SameObstacle(
    env: Env, w: World, middle: World, now: int, copies: seq<DataCopy>, k: nat)
    requires 0 < k < |copies| && (forall copy :: copy in copies ==> copy in Copies(w)) && copies[k] != copies[0]
    requires Retires(env, w, middle, now, copies[..1])
    ensures Obstacle(middle.tree, copies[k]) == Obstacle(w.tree, copies[k])
  {
    assert copies[..1] == [copies[0]];
    OtherRootStays(env, w, middle, now, copies[0], copies[k]);
  }

  lemma {:induction false} AllSameRetirable(
    env: Env, w: World, middle: World, now: int, ids: nat -> string, copies: seq<DataCopy>)
    requires IsActivated(env, w) && copies != [] && forall copy :: copy in copies ==> copy in Copies(w)
    requires middle == RetireCopy(env, w, now, ids, copies[0]).world && Retirable(env, w, now, copies[0])
    ensures Replay(middle.log).Ok?
    ensures forall i :: 1 <= i < |copies| ==>
      && Retirable(env, w, now, copies[i]) == Retirable(env, middle, now, copies[1..][i - 1])
      && (!Retirable(env, w, now, copies[i]) ==> copies[i] != copies[0])
  {
    SameRetirable(env, w, middle, now, ids, copies[0], copies[0]);
    forall i | 1 <= i < |copies|
      ensures Retirable(env, w, now, copies[i]) == Retirable(env, middle, now, copies[1..][i - 1])
      ensures !Retirable(env, w, now, copies[i]) ==> copies[i] != copies[0]
    {
      SameRetirable(env, w, middle, now, ids, copies[0], copies[i]);
    }
  }

  lemma {:induction false} SameRetirable(
    env: Env, w: World, middle: World, now: int, ids: nat -> string, copy: DataCopy, other: DataCopy)
    requires IsActivated(env, w) && copy in Copies(w) && other in Copies(w) && Retirable(env, w, now, copy)
    requires middle == RetireCopy(env, w, now, ids, copy).world
    ensures Replay(middle.log).Ok? && Retirable(env, middle, now, other) == Retirable(env, w, now, other)
    ensures !Retirable(env, middle, now, other) ==> other != copy
  {
    RetireCopyIsIndependent(env, w, now, ids, copy);
  }

  // ---------- the whole call ----------

  lemma {:induction false} LeftWithout(tree: Tree, s: State, now: int, root: string)
    requires forall copy :: copy in s.copies && copy.retireAfter <= now ==> Disjoint(copy.rootDir, root)
    ensures Subtree(Left(tree, s, now, s.copies), root) == Subtree(tree, root)
  {
    forall path | path in tree && IsSameOrNested(path, root) ensures path in Left(tree, s, now, s.copies) {
      forall copy | copy in s.copies ensures !Takes(tree, s, now, copy, path) {
        if Takes(tree, s, now, copy, path) {
          SharedPathMeansNested(path, copy.rootDir, root);
        }
      }
    }
  }

  lemma {:induction false} DueIsGone(tree: Tree, s: State, now: int, copy: DataCopy)
    requires copy in s.copies && copy.retireAfter <= now && copy.copyId !in s.retired
    ensures IsGone(tree, Left(tree, s, now, s.copies), copy.rootDir)
  {
    var after := Left(tree, s, now, s.copies);
    forall path | path in after && IsSameOrNested(path, copy.rootDir) ensures copy.rootDir !in tree {
      assert !Takes(tree, s, now, copy, path);
    }
    assert IsSameOrNested(copy.rootDir, copy.rootDir);
    assert PathsUnder(after, copy.rootDir) <= PathsUnder(tree, copy.rootDir);
  }

  lemma {:induction false} RetiresWhatIsDue(env: Env, w: World, loop: World, next: World, now: int)
    requires Retires(env, w, loop, now, Copies(w)) && Replay(next.log).Ok? && next.tree == loop.tree
    requires loop.log <= next.log && AllAt(loop.log, next.log, now)
    requires var t := Replay(loop.log).value;
      Replay(next.log).value == t.(completed := t.completed || AllRetired(t.copies, t.retired))
    ensures RetiredWhatIsDue(w, next, now)
  {
    var s, t := Replay(w.log).value, Replay(next.log).value;
    ReplayIsConsistent(loop.log);
    forall copy | copy in s.copies && copy.retireAfter <= now
      ensures copy.copyId in t.started && copy.copyId in t.retired
      ensures copy.copyId !in s.retired ==> IsGone(w.tree, next.tree, copy.rootDir)
    {
      assert copy.copyId in DueIds(now, s.copies);
      if copy.copyId !in s.retired {
        DueIsGone(w.tree, s, now, copy);
      }
    }
    forall copy | copy in s.copies && copy.retireAfter > now
      ensures copy.copyId !in DueIds(now, s.copies)
      ensures Subtree(next.tree, copy.rootDir) == Subtree(w.tree, copy.rootDir)
    {
      NotDueIsApart(env, s, now, copy);
      LeftWithout(w.tree, s, now, copy.rootDir);
    }
    forall path | path in w.tree && path !in next.tree ensures exists copy :: IsDueAt(s, now, copy, path) {
      var copy :| copy in s.copies && Takes(w.tree, s, now, copy, path);
      assert IsDueAt(s, now, copy, path);
    }
  }

  lemma {:induction false} NotDueIsApart(env: Env, s: State, now: int, copy: DataCopy)
    requires SafeRoots(env, s) && copy in s.copies && copy.retireAfter > now
    ensures copy.copyId !in DueIds(now, s.copies)
    ensures forall other :: other in s.copies && other.retireAfter <= now ==> Disjoint(other.rootDir, copy.rootDir)
  {
    forall other | other in s.copies && other.retireAfter <= now
      ensures Disjoint(other.rootDir, copy.rootDir) && other.copyId != copy.copyId
    {
      OtherCopyIsApart(env, s, other, copy);
    }
  }

  lemma {:induction false} CompletionRecords(env: Env, w: World, now: int, ids: nat -> string)
    requires IsActivated(env, w)
    ensures var out := CompleteIfDone(env, w, now, ids); var t := Replay(w.log).value;
      && out.failure.None? && Replay(out.world.log).Ok? && out.world.tree == w.tree
      && w.log <= out.world.log && AllAt(w.log, out.world.log, now)
      && Replay(out.world.log).value == t.(completed := t.completed || AllRetired(t.copies, t.retired))
  {
    var t := Replay(w.log).value;
    if !t.completed && AllRetired(t.copies, t.retired) {
      EnabledEventApplies(env, w, Complete(ids(|w.log|), now));
    } else {
      assert t == t.(completed := t.completed || AllRetired(t.copies, t.retired));
    }
  }

  // A call that succeeds retires every copy that is due, deletes exactly those, and leaves the others with
  // their trees and their marks; a call that fails does so up to the first copy that is missing or changed.
  lemma {:induction false} CallRetiresWhatIsDue(env: Env, w: World, now: int, ids: nat -> string)
    requires IsActivated(env, w)
    ensures var out := RetireAll(env, w, now, ids);
      if out.failure.None? then RetiredWhatIsDue(w, out.world, now) else StoppedByCopy(env, w, out, now)
  {
    var k := LoopRetires(env, w, now, ids, Copies(w));
    var loop := RetireLoop(env, w, now, ids, Copies(w));
    if loop.failure.None? {
      CompletionRecords(env, loop.world, now, ids);
      RetiresWhatIsDue(env, w, loop.world, CompleteIfDone(env, loop.world, now, ids).world, now);
    }
  }
}
