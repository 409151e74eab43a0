// The retirement of identity-bearing data copies as a machine over (audit log, file tree).
// Every action is one durable effect, so a crash is a run that stops after any action.
module Lifecycle {
  import opened Wrappers
  import opened Paths
  import opened AuditLog

  const MAX_SAFE_INTEGER := 9007199254740991
  const ARTIFACT_FILE := "/participant-data-deletion.json"

  datatype Node = Directory | File(content: string)

  // Entries by resolved path; a directory is an entry of its own.
  type Tree = map<string, Node>

  datatype Artifact = Artifact(deletionId: string, sourceTreeFingerprint: string, targetTreeFingerprint: string)

  // What the tools take as given: the audit root, SHA-256 of a record, the fingerprint of a root and
  // the entries at or below it, and the decoder of a deletion artifact (None when unsupported).
  datatype Env = Env(
    auditRootDir: string,
    hash: RecordHash,
    fingerprint: (string, Tree) -> string,
    readArtifact: string -> Option<Artifact>)

  datatype World = World(log: seq<Record>, tree: Tree)

  datatype Request = Request(
    requestId: string, subjectReference: string, requestedAt: int,
    sourceRootDir: string, backupRootDirs: seq<string>,
    directIdentityRetentionMs: int, backupRetentionMs: int,
    copyIds: seq<string>)

  datatype Action =
    | Create(eventId: string, request: Request)
    | Prepare(eventId: string, occurredAt: int, targetRootDir: string)
    | Activate(eventId: string, occurredAt: int, targetRootDir: string, manifestId: string, healthVerifiedAt: int)
    | StartRetirement(eventId: string, now: int, copy: DataCopy)
    | RemovePaths(now: int, copy: DataCopy, paths: set<string>)
    | FinishRetirement(eventId: string, now: int, copy: DataCopy)
    | Complete(eventId: string, now: int)
    | Outside(tree: Tree)  // anything other processes do to the file tree

  // ---------- file tree ----------

  function PathsUnder(tree: Tree, root: string): set<string> {
    set path | path in tree && IsSameOrNested(path, root)
  }

  function Subtree(tree: Tree, root: string): Tree {
    map path | path in tree && IsSameOrNested(path, root) :: tree[path]
  }

  function FingerprintAt(env: Env, tree: Tree, root: string): string {
    env.fingerprint(root, Subtree(tree, root))
  }

  // A recursive removal deletes the root directory last.
  predicate RemovalStep(tree: Tree, root: string, paths: set<string>) {
    && paths <= PathsUnder(tree, root)
    && (root in paths ==> paths == PathsUnder(tree, root))
  }

  function ArtifactAt(env: Env, tree: Tree, root: string): Option<Artifact> {
    var path := root + ARTIFACT_FILE;
    if path in tree && tree[path].File? then env.readArtifact(tree[path].content) else None
  }

  // ---------- guards ----------

  function Roots(request: Request): seq<string> {
    [request.sourceRootDir] + request.backupRootDirs
  }

  function Retention(request: Request, index: nat): int {
    if index == 0 then request.directIdentityRetentionMs else request.backupRetentionMs
  }

  predicate ValidRoot(env: Env, tree: Tree, root: string) {
    !TooBroad(root) && Disjoint(root, env.auditRootDir) && root in tree
  }

  predicate ValidTimes(request: Request) {
    && 0 <= request.requestedAt
    && 0 < request.directIdentityRetentionMs <= MAX_SAFE_INTEGER
    && 0 < request.backupRetentionMs <= MAX_SAFE_INTEGER
    && (forall i :: 0 <= i < |Roots(request)| ==> request.requestedAt + Retention(request, i) <= MAX_SAFE_INTEGER)
  }

  ghost predicate ValidRequest(env: Env, tree: Tree, request: Request) {
    && ValidTimes(request)
    && (forall i :: 0 <= i < |Roots(request)| ==> ValidRoot(env, tree, Roots(request)[i]))
    && PairwiseDisjoint(Roots(request))
  }

  // The copy ids are prefixed random UUIDs, one per root.
  predicate FreshIds(request: Request) {
    && |request.copyIds| == |Roots(request)|
    && (forall i, j :: 0 <= i < j < |request.copyIds| ==> request.copyIds[i] != request.copyIds[j])
  }

  function Registered(env: Env, tree: Tree, request: Request): seq<DataCopy>
    requires |request.copyIds| == |Roots(request)|
  {
    seq(|request.copyIds|, i requires 0 <= i < |request.copyIds| =>
      DataCopy(
        request.copyIds[i],
        if i == 0 then Source else Backup,
        Roots(request)[i],
        FingerprintAt(env, tree, Roots(request)[i]),
        request.requestedAt + Retention(request, i)))
  }

  predicate DisjointFromCopies(root: string, copies: seq<DataCopy>) {
    forall copy :: copy in copies ==> Disjoint(root, copy.rootDir)
  }

  predicate MatchesSource(copies: seq<DataCopy>, fingerprint: string) {
    match FindSource(copies)
    case None => false
    case Some(copy) => copy.treeFingerprint == fingerprint
  }

  function FindSource(copies: seq<DataCopy>): Option<DataCopy> {
    if copies == [] then None
    else if copies[0].kind.Source? then Some(copies[0])
    else FindSource(copies[1..])
  }

  predicate Due(s: State, now: int, copy: DataCopy) {
    s.activated.Some? && copy in s.copies && copy.retireAfter <= now && copy.copyId !in s.retired
  }

  ghost predicate Enabled(env: Env, w: World, a: Action) {
    match a
    case Create(_, request) => w.log == [] && FreshIds(request) && ValidRequest(env, w.tree, request)
    case Outside(_) => true
    case _ => Replay(w.log).Ok? && EnabledIn(env, w.tree, Replay(w.log).value, a)
  }

  // The checks of the writers that first read the state of an existing request.
  predicate EnabledIn(env: Env, tree: Tree, s: State, a: Action) {
    match a
    case Prepare(_, occurredAt, target) =>
      && 0 <= occurredAt && s.prepared.None?
      && target in tree && Disjoint(target, env.auditRootDir) && DisjointFromCopies(target, s.copies)
      && var artifact := ArtifactAt(env, tree, target);
        artifact.Some? && MatchesSource(s.copies, artifact.value.sourceTreeFingerprint)
    case Activate(_, occurredAt, target, _, verifiedAt) =>
      && 0 <= verifiedAt <= occurredAt
      && s.prepared.Some? && s.activated.None? && target == s.prepared.value.rootDir
      && var artifact := ArtifactAt(env, tree, target);
        artifact.Some? && artifact.value.deletionId == s.prepared.value.deletionId
    case StartRetirement(_, now, copy) =>
      && Due(s, now, copy) && copy.copyId !in s.started
      && copy.rootDir in tree && FingerprintAt(env, tree, copy.rootDir) == copy.treeFingerprint
    case RemovePaths(now, copy, paths) =>
      Due(s, now, copy) && copy.copyId in s.started && RemovalStep(tree, copy.rootDir, paths)
    case FinishRetirement(_, now, copy) =>
      Due(s, now, copy) && copy.copyId in s.started && copy.rootDir !in tree
    case Complete(_, _) => s.activated.Some? && !s.completed && AllRetired(s.copies, s.retired)
    case Create(_, _) => false
    case Outside(_) => true
  }

  // ---------- effects ----------

  function Append(env: Env, w: World, eventId: string, occurredAt: int, event: Event): World {
    w.(log := w.log + [NextRecord(env.hash, w.log, eventId, occurredAt, event)])
  }

  function Next(env: Env, w: World, a: Action): World
    requires a.Create? ==> |a.request.copyIds| == |Roots(a.request)|
  {
    match a
    case Create(eventId, request) =>
      Append(env, w, eventId, request.requestedAt, RequestRecorded(
        request.requestId, request.subjectReference,
        Policy(request.directIdentityRetentionMs, request.backupRetentionMs),
        Registered(env, w.tree, request)))
    case Prepare(eventId, occurredAt, target) =>
      (match ArtifactAt(env, w.tree, target)
       case None => w
       case Some(artifact) =>
         Append(env, w, eventId, occurredAt,
           CopyPrepared(artifact.deletionId, target, artifact.targetTreeFingerprint)))
    case Activate(eventId, occurredAt, target, manifestId, verifiedAt) =>
      Append(env, w, eventId, occurredAt, CopyActivated(target, manifestId, verifiedAt))
    case StartRetirement(eventId, now, copy) =>
      Append(env, w, eventId, now, RetirementStarted(copy.copyId, copy.treeFingerprint))
    case RemovePaths(_, _, paths) => w.(tree := w.tree - paths)
    case FinishRetirement(eventId, now, copy) => Append(env, w, eventId, now, CopyRetired(copy.copyId))
    case Complete(eventId, now) => Append(env, w, eventId, now, RequestCompleted)
    case Outside(tree) => w.(tree := tree)
  }

  ghost predicate Legal(env: Env, w: World, actions: seq<Action>) {
    actions == [] ||
    (&& Legal(env, w, actions[..|actions| - 1])
     && Enabled(env, After(env, w, actions[..|actions| - 1]), actions[|actions| - 1]))
  }

  // Where a run of actions leads.
  ghost function After(env: Env, w: World, actions: seq<Action>): World
    decreases |actions|
  {
    if actions == [] then w
    else
      var before := After(env, w, actions[..|actions| - 1]);
      var last := actions[|actions| - 1];
      if last.Create? && |last.request.copyIds| != |Roots(last.request)| then before
      else Next(env, before, last)
  }

  lemma {:induction false} LegalPrefix(env: Env, w: World, actions: seq<Action>, n: nat)
    requires n <= |actions| && Legal(env, w, actions)
    ensures Legal(env, w, actions[..n])
    ensures n < |actions| ==>
      && Enabled(env, After(env, w, actions[..n]), actions[n])
      && After(env, w, actions[..n + 1]) == Next(env, After(env, w, actions[..n]), actions[n])
  {
    if n == |actions| {
      assert actions[..n] == actions;
    } else {
      var init := actions[..|actions| - 1];
      if n < |init| {
        assert init[..n] == actions[..n] && init[..n + 1] == actions[..n + 1];
        LegalPrefix(env, w, init, n);
      } else {
        assert actions[..n] == init && actions[..n + 1] == actions;
      }
    }
  }

  lemma LegalExtend(env: Env, w: World, actions: seq<Action>, a: Action)
    requires Legal(env, w, actions) && Enabled(env, After(env, w, actions), a)
    ensures Legal(env, w, actions + [a])
    ensures After(env, w, actions + [a]) == Next(env, After(env, w, actions), a)
  {
    assert (actions + [a])[..|actions|] == actions;
  }

  // ---------- every reachable log is accepted ----------

  predicate SafeRoots(env: Env, s: State) {
    && (forall i, j :: 0 <= i < j < |s.copies| ==>
         Disjoint(s.copies[i].rootDir, s.copies[j].rootDir) && s.copies[i].copyId != s.copies[j].copyId)
    && DisjointFromCopies(env.auditRootDir, s.copies)
    && (s.prepared.Some? ==> DisjointFromCopies(s.prepared.value.rootDir, s.copies))
    && (s.activated.Some? ==> s.prepared.Some? && s.activated.value.rootDir == s.prepared.value.rootDir)
  }

  // The log is empty, or the reader accepts it and its roots cannot reach each other.
  predicate Sound(env: Env, w: World) {
    w.log != [] ==> Chained(env.hash, w.log) && Replay(w.log).Ok? && SafeRoots(env, Replay(w.log).value)
  }

  function EventOf(env: Env, tree: Tree, a: Action): Option<Event> {
    match a
    case Prepare(_, _, target) =>
      (match ArtifactAt(env, tree, target)
       case None => None
       case Some(artifact) => Some(CopyPrepared(artifact.deletionId, target, artifact.targetTreeFingerprint)))
    case Activate(_, _, target, manifestId, verifiedAt) => Some(CopyActivated(target, manifestId, verifiedAt))
    case StartRetirement(_, _, copy) => Some(RetirementStarted(copy.copyId, copy.treeFingerprint))
    case FinishRetirement(_, _, copy) => Some(CopyRetired(copy.copyId))
    case Complete(_, _) => Some(RequestCompleted)
    case _ => None
  }

  lemma ReplayAppend(env: Env, w: World, eventId: string, occurredAt: int, event: Event)
    requires Replay(w.log).Ok?
    ensures Replay(Append(env, w, eventId, occurredAt, event).log) == Apply(Replay(w.log).value, event)
  {
    var log := Append(env, w, eventId, occurredAt, event).log;
    assert log[..|log| - 1] == w.log;
  }

  lemma OtherCopyIsApart(env: Env, s: State, a: DataCopy, b: DataCopy)
    requires SafeRoots(env, s) && a in s.copies && b in s.copies && a != b
    ensures Disjoint(a.rootDir, b.rootDir) && a.copyId != b.copyId
  {
    var i :| 0 <= i < |s.copies| && s.copies[i] == a;
    var j :| 0 <= j < |s.copies| && s.copies[j] == b;
    if i < j {
      assert Disjoint(s.copies[i].rootDir, s.copies[j].rootDir);
    } else {
      assert Disjoint(s.copies[j].rootDir, s.copies[i].rootDir);
    }
  }

  lemma EnabledEventIsAccepted(env: Env, tree: Tree, s: State, a: Action)
    requires SafeRoots(env, s) && EnabledIn(env, tree, s, a) && EventOf(env, tree, a).Some?
    ensures Apply(s, EventOf(env, tree, a).value).Ok?
  {
    if a.StartRetirement? {
      var found := FindCopy(s.copies, a.copy.copyId);
      if found.value != a.copy {
        OtherCopyIsApart(env, s, found.value, a.copy);
      }
    }
  }

  lemma NextAppendsEvent(env: Env, w: World, a: Action)
    requires EventOf(env, w.tree, a).Some?
    ensures exists eventId, at :: Next(env, w, a) == Append(env, w, eventId, at, EventOf(env, w.tree, a).value)
  {
    var last := Next(env, w, a).log[|w.log|].body;
    assert Next(env, w, a) == Append(env, w, last.eventId, last.occurredAt, EventOf(env, w.tree, a).value);
  }

  // The reader agrees with what an enabled writer appends.
  lemma EnabledEventApplies(env: Env, w: World, a: Action)
    requires Sound(env, w) && Enabled(env, w, a) && EventOf(env, w.tree, a).Some?
    ensures Replay(w.log).Ok? && Apply(Replay(w.log).value, EventOf(env, w.tree, a).value).Ok?
    ensures Replay(Next(env, w, a).log) == Apply(Replay(w.log).value, EventOf(env, w.tree, a).value)
    ensures Next(env, w, a).tree == w.tree
    ensures Chained(env.hash, Next(env, w, a).log)
  {
    var event := EventOf(env, w.tree, a).value;
    EnabledEventIsAccepted(env, w.tree, Replay(w.log).value, a);
    NextAppendsEvent(env, w, a);
    var eventId, at :| Next(env, w, a) == Append(env, w, eventId, at, event);
    ReplayAppend(env, w, eventId, at, event);
    AppendKeepsChain(env.hash, w.log, eventId, at, event);
  }

  lemma CreateIsSound(env: Env, w: World, a: Action)
    requires a.Create? && Enabled(env, w, a)
    ensures Sound(env, Next(env, w, a))
  {
    var next := Next(env, w, a);
    var first := next.log[0];
    AppendKeepsChain(env.hash, w.log, first.body.eventId, first.body.occurredAt, first.body.event);
    assert next.log == [first];
    var s := Replay(next.log).value;
    forall i, j | 0 <= i < j < |s.copies|
      ensures Disjoint(s.copies[i].rootDir, s.copies[j].rootDir) && s.copies[i].copyId != s.copies[j].copyId
    {
      assert Disjoint(Roots(a.request)[i], Roots(a.request)[j]);
    }
    forall copy | copy in s.copies ensures Disjoint(env.auditRootDir, copy.rootDir) {
      var i :| 0 <= i < |s.copies| && s.copies[i] == copy;
      assert ValidRoot(env, w.tree, Roots(a.request)[i]);
    }
  }

  // Appended records keep what is known about the roots.
  lemma EventKeepsRoots(env: Env, tree: Tree, s: State, a: Action)
    requires SafeRoots(env, s) && Consistent(s) && EnabledIn(env, tree, s, a)
    requires EventOf(env, tree, a).Some? && Apply(s, EventOf(env, tree, a).value).Ok?
    ensures SafeRoots(env, Apply(s, EventOf(env, tree, a).value).value)
  {
  }

  lemma StepKeepsSound(env: Env, w: World, a: Action)
    requires Sound(env, w) && Enabled(env, w, a)
    ensures Sound(env, Next(env, w, a))
    ensures w.log <= Next(env, w, a).log
  {
    if a.Create? {
      CreateIsSound(env, w, a);
    } else if EventOf(env, w.tree, a).Some? {
      EnabledEventApplies(env, w, a);
      ReplayIsConsistent(w.log);
      EventKeepsRoots(env, w.tree, Replay(w.log).value, a);
    }
  }

  // Whatever the writers did and wherever they crashed, the reader accepts the log.
  lemma {:induction false} ReachableLogsAreAccepted(env: Env, tree: Tree, actions: seq<Action>)
    requires Legal(env, World([], tree), actions)
    ensures Sound(env, After(env, World([], tree), actions))
    ensures var log := After(env, World([], tree), actions).log;
      log != [] ==> Chained(env.hash, log) && Replay(log).Ok? && Consistent(Replay(log).value)
  {
    if actions != [] {
      ReachableLogsAreAccepted(env, tree, actions[..|actions| - 1]);
      StepKeepsSound(env, After(env, World([], tree), actions[..|actions| - 1]), actions[|actions| - 1]);
    }
    var log := After(env, World([], tree), actions).log;
    if log != [] {
      ReplayIsConsistent(log);
    }
  }

  // Between any two points of a run the log only grows, the status only moves forward and the next
  // retention deadline never decreases.
  lemma {:induction false} RunsMoveForward(env: Env, tree: Tree, actions: seq<Action>, n: nat)
    requires n <= |actions| && Legal(env, World([], tree), actions)
    ensures var before, after :=
        After(env, World([], tree), actions[..n]).log, After(env, World([], tree), actions).log;
      && before <= after
      && (before != [] ==>
           && Replay(before).Ok? && Replay(after).Ok?
           && var (s, t) := (Replay(before).value, Replay(after).value);
             && Forward(s, t)
             && (NextDeadline(t.copies, t.retired).Some? ==>
                  && NextDeadline(s.copies, s.retired).Some?
                  && NextDeadline(s.copies, s.retired).value <= NextDeadline(t.copies, t.retired).value))
  {
    LogGrows(env, tree, actions, n);
    var before, after := After(env, World([], tree), actions[..n]).log, After(env, World([], tree), actions).log;
    if before != [] {
      ReachableLogsAreAccepted(env, tree, actions);
      PrefixMovesForward(after, |before|);
      assert after[..|before|] == before;
      DeadlineNeverDecreases(Replay(before).value.copies, Replay(before).value.retired, Replay(after).value.retired);
    }
  }

  lemma {:induction false} LogGrows(env: Env, tree: Tree, actions: seq<Action>, n: nat)
    requires n <= |actions| && Legal(env, World([], tree), actions)
    ensures After(env, World([], tree), actions[..n]).log <= After(env, World([], tree), actions).log
  {
    if n == |actions| {
      assert actions[..n] == actions;
    } else {
      var init := actions[..|actions| - 1];
      assert init[..n] == actions[..n];
      LogGrows(env, tree, init, n);
      ReachableLogsAreAccepted(env, tree, init);
      StepKeepsSound(env, After(env, World([], tree), init), actions[|actions| - 1]);
    }
  }

  // ---------- what a run may remove ----------

  // Action k appended the retirement intent of the copy, after activation and while the tree still
  // had its registered fingerprint.
  ghost predicate IntentAt(env: Env, w: World, actions: seq<Action>, k: nat, copy: DataCopy)
    requires k < |actions|
  {
    var before := After(env, w, actions[..k]);
    && actions[k].StartRetirement? && actions[k].copy == copy
    && Replay(before.log).Ok? && Replay(before.log).value.activated.Some?
    && copy in Replay(before.log).value.copies
    && copy.retireAfter <= actions[k].now
    && FingerprintAt(env, before.tree, copy.rootDir) == copy.treeFingerprint
  }

  // A recorded event starts no copy but the one it names.
  lemma EventStarts(env: Env, tree: Tree, s: State, a: Action, copy: DataCopy)
    requires SafeRoots(env, s) && EnabledIn(env, tree, s, a) && EventOf(env, tree, a).Some?
    requires Apply(s, EventOf(env, tree, a).value).Ok?
    requires var t := Apply(s, EventOf(env, tree, a).value).value;
      copy in t.copies && copy.copyId in t.started
    ensures copy in s.copies && (copy.copyId in s.started || (a.StartRetirement? && a.copy == copy))
  {
    if copy.copyId !in s.started && a.copy != copy {
      OtherCopyIsApart(env, s, a.copy, copy);
    }
  }

  // A copy id enters the started set only through the copy's own intent.
  lemma StepStarts(env: Env, w: World, a: Action, copy: DataCopy)
    requires Sound(env, w) && Enabled(env, w, a)
    requires var log := Next(env, w, a).log;
      Replay(log).Ok? && copy in Replay(log).value.copies && copy.copyId in Replay(log).value.started
    ensures Replay(w.log).Ok? && copy in Replay(w.log).value.copies
    ensures copy.copyId in Replay(w.log).value.started ||
      (a.StartRetirement? && a.copy == copy && EnabledIn(env, w.tree, Replay(w.log).value, a))
  {
    if !a.Create? && EventOf(env, w.tree, a).Some? {
      EnabledEventApplies(env, w, a);
      EventStarts(env, w.tree, Replay(w.log).value, a, copy);
    }
  }

  lemma {:induction false} StartedHasIntent(env: Env, tree: Tree, actions: seq<Action>, copy: DataCopy)
    requires Legal(env, World([], tree), actions)
    requires var log := After(env, World([], tree), actions).log;
      Replay(log).Ok? && copy in Replay(log).value.copies && copy.copyId in Replay(log).value.started
    ensures exists k :: 0 <= k < |actions| && IntentAt(env, World([], tree), actions, k, copy)
  {
    var w0 := World([], tree);
    var n := |actions| - 1;
    var init := actions[..n];
    var w := After(env, w0, init);
    ReachableLogsAreAccepted(env, tree, init);
    StepStarts(env, w, actions[n], copy);
    if copy.copyId in Replay(w.log).value.started {
      StartedHasIntent(env, tree, init, copy);
      var k :| 0 <= k < |init| && IntentAt(env, w0, init, k, copy);
      assert init[..k] == actions[..k];
      assert IntentAt(env, w0, actions, k, copy);
    } else {
      assert IntentAt(env, w0, actions, n, copy);
    }
  }

  // In every run with crashes, the machine removes a path only below a registered root whose deadline
  // has passed and whose retirement intent is already in the log; the audit root, the activated
  // target and every other copy keep all their paths.
  lemma RemovalIsAuthorized(env: Env, tree: Tree, actions: seq<Action>, i: nat, path: string)
    requires Legal(env, World([], tree), actions) && i < |actions| && !actions[i].Outside?
    requires path in After(env, World([], tree), actions[..i]).tree
    requires path !in After(env, World([], tree), actions[..i + 1]).tree
    ensures actions[i].RemovePaths? && Replay(After(env, World([], tree), actions[..i]).log).Ok?
    ensures var s := Replay(After(env, World([], tree), actions[..i]).log).value;
      var copy := actions[i].copy;
      && copy in s.copies && IsSameOrNested(path, copy.rootDir)
      && copy.retireAfter <= actions[i].now
      && copy.copyId in s.started && copy.copyId !in s.retired
      && (exists k :: 0 <= k < i && IntentAt(env, World([], tree), actions, k, copy))
      && !IsSameOrNested(path, env.auditRootDir)
      && s.activated.Some? && !IsSameOrNested(path, s.activated.value.rootDir)
      && (forall other :: other in s.copies && other != copy ==> !IsSameOrNested(path, other.rootDir))
  {
    var w0 := World([], tree);
    LegalPrefix(env, w0, actions, i);
    var prefix := actions[..i];
    var w := After(env, w0, prefix);
    ReachableLogsAreAccepted(env, tree, prefix);
    if EventOf(env, w.tree, actions[i]).Some? {
      EnabledEventApplies(env, w, actions[i]);
      assert false;
    }
    var s, copy := Replay(w.log).value, actions[i].copy;
    StartedHasIntent(env, tree, prefix, copy);
    var k :| 0 <= k < |prefix| && IntentAt(env, w0, prefix, k, copy);
    assert prefix[..k] == actions[..k];
    assert IntentAt(env, w0, actions, k, copy);
    if IsSameOrNested(path, env.auditRootDir) {
      SharedPathMeansNested(path, env.auditRootDir, copy.rootDir);
      assert false;
    }
    if IsSameOrNested(path, s.activated.value.rootDir) {
      SharedPathMeansNested(path, s.activated.value.rootDir, copy.rootDir);
      assert false;
    }
    forall other | other in s.copies && other != copy ensures !IsSameOrNested(path, other.rootDir) {
      if IsSameOrNested(path, other.rootDir) {
        SharedPathMeansNested(path, other.rootDir, copy.rootDir);
        OtherCopyIsApart(env, s, other, copy);
        assert false;
      }
    }
  }

  // The surviving entries are never rewritten by the machine.
  lemma MachineOnlyRemoves(env: Env, w: World, a: Action)
    requires Enabled(env, w, a) && !a.Outside?
    ensures forall path :: path in Next(env, w, a).tree ==> path in w.tree && Next(env, w, a).tree[path] == w.tree[path]
  {
  }
}
