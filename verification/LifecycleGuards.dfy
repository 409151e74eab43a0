// When the writers of a request accept a call, and what they record: said of the arguments, the records
// and the file tree.
module LifecycleGuards {
  import opened Wrappers
  import opened Paths
  import opened AuditLog
  import opened LogMeaning
  import opened Lifecycle

  // The root lies below a direct child of the file-system root.
  predicate IsDeep(root: string) {
    root == "" || exists i :: 1 <= i < |root| && root[i] == '/'
  }

  lemma {:induction false} DeepIff(root: string)
    ensures IsDeep(root) <==> !TooBroad(root)
  {
    forall i | 1 <= i < |root| ensures root[i] == root[1..][i - 1] {
    }
    if root != "" && '/' in root[1..] {
      var j :| 0 <= j < |root[1..]| && root[1..][j] == '/';
      assert root[j + 1] == '/';
    }
  }

  // ---------- a new request ----------

  ghost predicate MayRegister(env: Env, tree: Tree, root: string) {
    root in tree && IsDeep(root) && ShareNothing(root, env.auditRootDir)
  }

  ghost predicate MayCreate(env: Env, w: World, request: Request) {
    var direct, backup := request.directIdentityRetentionMs, request.backupRetentionMs;
    && w.log == [] && 0 <= request.requestedAt
    && 0 < direct && request.requestedAt + direct <= MAX_SAFE_INTEGER
    && 0 < backup <= MAX_SAFE_INTEGER
    && (request.backupRootDirs != [] ==> request.requestedAt + backup <= MAX_SAFE_INTEGER)
    && MayRegister(env, w.tree, request.sourceRootDir)
    && (forall root :: root in request.backupRootDirs ==>
         MayRegister(env, w.tree, root) && ShareNothing(request.sourceRootDir, root))
    && (forall i, j :: 0 <= i < j < |request.backupRootDirs| ==>
         ShareNothing(request.backupRootDirs[i], request.backupRootDirs[j]))
  }

  lemma {:induction false} RegisterIff(env: Env, tree: Tree, root: string)
    ensures MayRegister(env, tree, root) <==> ValidRoot(env, tree, root)
  {
    DeepIff(root);
    DisjointIff(root, env.auditRootDir);
  }

  lemma {:induction false} RootsAt(request: Request)
    ensures |Roots(request)| == 1 + |request.backupRootDirs| && Roots(request)[0] == request.sourceRootDir
    ensures forall i :: 0 <= i < |request.backupRootDirs| ==> Roots(request)[i + 1] == request.backupRootDirs[i]
    ensures forall i :: 1 <= i < |Roots(request)| ==> Roots(request)[i] == request.backupRootDirs[i - 1]
  {
  }

  lemma {:induction false} TimesIff(request: Request)
    ensures ValidTimes(request) <==>
      && 0 <= request.requestedAt
      && 0 < request.directIdentityRetentionMs
      && request.requestedAt + request.directIdentityRetentionMs <= MAX_SAFE_INTEGER
      && 0 < request.backupRetentionMs <= MAX_SAFE_INTEGER
      && (request.backupRootDirs != [] ==> request.requestedAt + request.backupRetentionMs <= MAX_SAFE_INTEGER)
  {
    RootsAt(request);
    assert Retention(request, 0) == request.directIdentityRetentionMs;
    assert Retention(request, 1) == request.backupRetentionMs;
    if ValidTimes(request) {
      assert request.requestedAt + Retention(request, 0) <= MAX_SAFE_INTEGER;
      assert request.backupRootDirs != [] ==> request.requestedAt + Retention(request, 1) <= MAX_SAFE_INTEGER;
    }
  }

  lemma {:induction false} AllApartIff(request: Request)
    ensures PairwiseDisjoint(Roots(request)) <==>
      && (forall root :: root in request.backupRootDirs ==> ShareNothing(request.sourceRootDir, root))
      && (forall i, j :: 0 <= i < j < |request.backupRootDirs| ==>
           ShareNothing(request.backupRootDirs[i], request.backupRootDirs[j]))
  {
    RootsAt(request);
    var roots, backups := Roots(request), request.backupRootDirs;
    forall a, b ensures Disjoint(a, b) <==> ShareNothing(a, b) {
      DisjointIff(a, b);
    }
    if PairwiseDisjoint(roots) {
      forall root | root in backups ensures ShareNothing(request.sourceRootDir, root) {
        var i :| 0 <= i < |backups| && backups[i] == root;
        assert Disjoint(roots[0], roots[i + 1]);
      }
      forall i, j | 0 <= i < j < |backups| ensures ShareNothing(backups[i], backups[j]) {
        assert Disjoint(roots[i + 1], roots[j + 1]);
      }
    }
  }

  lemma {:induction false} CreateIff(env: Env, w: World, eventId: string, request: Request)
    requires FreshIds(request)
    ensures Enabled(env, w, Create(eventId, request)) <==> MayCreate(env, w, request)
  {
    RootsAt(request);
    TimesIff(request);
    AllApartIff(request);
    forall root ensures MayRegister(env, w.tree, root) <==> ValidRoot(env, w.tree, root) {
      RegisterIff(env, w.tree, root);
    }
    AllRootsIff(env, w.tree, request);
  }

  lemma {:induction false} AllRootsIff(env: Env, tree: Tree, request: Request)
    ensures (forall i :: 0 <= i < |Roots(request)| ==> ValidRoot(env, tree, Roots(request)[i])) <==>
      && ValidRoot(env, tree, request.sourceRootDir)
      && (forall root :: root in request.backupRootDirs ==> ValidRoot(env, tree, root))
  {
    RootsAt(request);
    if forall i :: 0 <= i < |Roots(request)| ==> ValidRoot(env, tree, Roots(request)[i]) {
      forall root | root in request.backupRootDirs ensures ValidRoot(env, tree, root) {
        var i :| 0 <= i < |request.backupRootDirs| && request.backupRootDirs[i] == root;
        assert ValidRoot(env, tree, Roots(request)[i + 1]);
      }
    }
  }

  // The source is kept for the one period and every backup for the other; nothing else has happened yet.
  predicate IsNew(env: Env, tree: Tree, request: Request, s: State)
    requires FreshIds(request)
  {
    var (ids, at) := (request.copyIds, request.requestedAt);
    && s.requestId == request.requestId && s.subjectReference == request.subjectReference && s.requestedAt == at
    && s.policy == Policy(request.directIdentityRetentionMs, request.backupRetentionMs)
    && |s.copies| == 1 + |request.backupRootDirs|
    && s.copies[0] == DataCopy(
         ids[0], Source, request.sourceRootDir, FingerprintAt(env, tree, request.sourceRootDir),
         at + request.directIdentityRetentionMs)
    && (forall i :: 0 <= i < |request.backupRootDirs| ==> s.copies[i + 1] == DataCopy(
         ids[i + 1], Backup, request.backupRootDirs[i], FingerprintAt(env, tree, request.backupRootDirs[i]),
         at + request.backupRetentionMs))
    && s.prepared.None? && s.activated.None? && s.started == {} && s.retired == {} && !s.completed
  }

  lemma {:induction false} CreatedIsNew(env: Env, w: World, eventId: string, request: Request)
    requires FreshIds(request) && w.log == []
    ensures var log := Next(env, w, Create(eventId, request)).log;
      Replay(log).Ok? && IsNew(env, w.tree, request, Replay(log).value)
  {
    RootsAt(request);
    var log := Next(env, w, Create(eventId, request)).log;
    assert |log| == 1;
    assert Replay(log).value.copies == Registered(env, w.tree, request);
  }

  // ---------- the anonymized copy ----------

  // The fingerprint of the first source copy.
  predicate IsSourceFingerprint(copies: seq<DataCopy>, fingerprint: string) {
    exists i :: 0 <= i < |copies| && copies[i].kind.Source? && copies[i].treeFingerprint == fingerprint
      && forall j :: 0 <= j < i ==> !copies[j].kind.Source?
  }

  // The artifact below the target decodes.
  predicate HasArtifact(env: Env, tree: Tree, target: string, artifact: Artifact) {
    var path := target + "/participant-data-deletion.json";
    path in tree && tree[path].File? && env.readArtifact(tree[path].content) == Some(artifact)
  }

  ghost predicate MayPrepare(env: Env, w: World, occurredAt: int, target: string, artifact: Artifact) {
    && InOrder(w.log) && !IsPrepared(w.log) && 0 <= occurredAt
    && target in w.tree && ShareNothing(target, env.auditRootDir)
    && (forall copy :: copy in CopiesOf(w.log) ==> ShareNothing(target, copy.rootDir))
    && HasArtifact(env, w.tree, target, artifact)
    && IsSourceFingerprint(CopiesOf(w.log), artifact.sourceTreeFingerprint)
  }

  ghost predicate MayActivate(
    env: Env, w: World, occurredAt: int, target: string, verifiedAt: int, artifact: Artifact)
  {
    && InOrder(w.log) && !IsActivated(w.log) && 0 <= verifiedAt <= occurredAt
    && HasArtifact(env, w.tree, target, artifact)
    && exists fingerprint :: IsIn(w.log, CopyPrepared(artifact.deletionId, target, fingerprint))
  }

  lemma {:induction false} SourceIsFound(copies: seq<DataCopy>, fingerprint: string)
    ensures IsSourceFingerprint(copies, fingerprint) <==> MatchesSource(copies, fingerprint)
  {
    if copies != [] {
      SourceIsFound(copies[1..], fingerprint);
      SourceInRest(copies, fingerprint);
    }
  }

  lemma {:induction false} SourceInRest(copies: seq<DataCopy>, fingerprint: string)
    requires copies != []
    ensures IsSourceFingerprint(copies, fingerprint) <==>
      if copies[0].kind.Source? then copies[0].treeFingerprint == fingerprint
      else IsSourceFingerprint(copies[1..], fingerprint)
  {
    if !copies[0].kind.Source? {
      if IsSourceFingerprint(copies, fingerprint) {
        var i :| 0 <= i < |copies| && copies[i].kind.Source? && copies[i].treeFingerprint == fingerprint
          && forall j :: 0 <= j < i ==> !copies[j].kind.Source?;
        assert copies[1..][i - 1] == copies[i];
      }
      if IsSourceFingerprint(copies[1..], fingerprint) {
        var i :| 0 <= i < |copies[1..]| && copies[1..][i].kind.Source?
          && copies[1..][i].treeFingerprint == fingerprint
          && forall j :: 0 <= j < i ==> !copies[1..][j].kind.Source?;
        forall j | 0 <= j < i + 1 ensures !copies[j].kind.Source? {
          assert j > 0 ==> copies[1..][j - 1] == copies[j];
        }
        assert copies[i + 1] == copies[1..][i];
      }
    }
  }

  lemma {:induction false} PrepareIff(env: Env, w: World, eventId: string, occurredAt: int, target: string)
    ensures Enabled(env, w, Prepare(eventId, occurredAt, target)) <==>
      exists artifact :: MayPrepare(env, w, occurredAt, target, artifact)
  {
    AcceptedIff(w.log);
    if Replay(w.log).Ok? {
      var s := Replay(w.log).value;
      PreparedIsShown(w.log, s);
      forall root ensures Disjoint(target, root) <==> ShareNothing(target, root) {
        DisjointIff(target, root);
      }
      forall artifact ensures
        ArtifactAt(env, w.tree, target) == Some(artifact) <==> HasArtifact(env, w.tree, target, artifact)
      {
      }
      if ArtifactAt(env, w.tree, target).Some? {
        var artifact := ArtifactAt(env, w.tree, target).value;
        SourceIsFound(s.copies, artifact.sourceTreeFingerprint);
        assert Enabled(env, w, Prepare(eventId, occurredAt, target)) <==>
          MayPrepare(env, w, occurredAt, target, artifact);
      }
    }
  }

  lemma {:induction false} ActivateIff(
    env: Env, w: World, eventId: string, occurredAt: int, target: string, manifestId: string, verifiedAt: int)
    ensures Enabled(env, w, Activate(eventId, occurredAt, target, manifestId, verifiedAt)) <==>
      exists artifact :: MayActivate(env, w, occurredAt, target, verifiedAt, artifact)
  {
    AcceptedIff(w.log);
    if Replay(w.log).Ok? {
      var s := Replay(w.log).value;
      PreparedIsShown(w.log, s);
      if ArtifactAt(env, w.tree, target).Some? {
        var artifact := ArtifactAt(env, w.tree, target).value;
        assert HasArtifact(env, w.tree, target, artifact);
        forall fingerprint ensures IsIn(w.log, CopyPrepared(artifact.deletionId, target, fingerprint)) <==>
          s.prepared == Some(PreparedTarget(artifact.deletionId, target, fingerprint))
        {
        }
        if s.prepared.Some? {
          var p := s.prepared.value;
          assert p == PreparedTarget(p.deletionId, p.rootDir, p.treeFingerprint);
        }
        assert Enabled(env, w, Activate(eventId, occurredAt, target, manifestId, verifiedAt)) <==>
          MayActivate(env, w, occurredAt, target, verifiedAt, artifact);
      }
    }
  }

  // One more record, with this event at this time; the file tree stays.
  predicate Records(w: World, next: World, eventId: string, occurredAt: int, event: Event) {
    && next.tree == w.tree && |next.log| == |w.log| + 1 && w.log <= next.log
    && next.log[|w.log|].body.event == event
    && next.log[|w.log|].body.eventId == eventId && next.log[|w.log|].body.occurredAt == occurredAt
  }
}
