// Copy-on-write migration of a runtime tree: the source is copied to a staging directory beside the
// target, rewritten there, and published by one rename. Every write may be the last one before a crash.
module Migration {
  import opened Wrappers
  import opened Relocation

  // Files by absolute path.
  type Files = map<Path, Content>

  const MARKER: Path := ["local-runtime-data-compatibility.json"]

  // Operations that belong to other packages, and digests.
  datatype Tools = Tools(
    urls: Urls,
    hash: Tree -> string,
    payloadId: Payload -> string,
    // the upgraded tree and the number of event stores in it
    upgrade: Tree -> Option<(Tree, nat)>,
    // whether the latest checkpoints load, for a tree at a root
    hydrates: (Path, Tree) -> bool,
    // whether the event stores are upgraded and as many as expected
    storesVerified: (Tree, nat) -> bool)

  // The store upgrade leaves the reference files of the staged tree alone.
  ghost predicate UpgradeIsLocal(tools: Tools, staging: Path) {
    forall tree :: tools.upgrade(tree).Some? ==> SameReferences(tree, tools.upgrade(tree).value.0, staging)
  }

  ghost predicate SameReferences(a: Tree, b: Tree, staging: Path) {
    forall rel: Path | IsReferenceFile(staging + rel) ::
      (rel in a <==> rel in b) && (rel in a && rel in b ==> a[rel] == b[rel])
  }

  function ArtifactFile(artifactId: string): Path {
    ["operations", "data-migrations", artifactId, "artifact.json"]
  }

  // ---------- trees on a disk ----------

  // The paths of the files below a root, relative to it.
  function Below(files: Files, root: Path): set<Path> {
    set p | p in files && IsUnder(p, root) :: p[|root|..]
  }

  lemma BelowMeans(files: Files, root: Path)
    ensures forall rel: Path :: rel in Below(files, root) <==> root + rel in files
  {
    forall rel: Path ensures rel in Below(files, root) <==> root + rel in files {
      assert (root + rel)[|root|..] == rel;
      if rel in Below(files, root) {
        var p :| p in files && IsUnder(p, root) && p[|root|..] == rel;
        assert p == root + rel;
      }
    }
  }

  function TreeAt(files: Files, root: Path): Tree {
    BelowMeans(files, root);
    map rel | rel in Below(files, root) :: files[root + rel]
  }

  lemma TreeAtMeans(files: Files, root: Path)
    ensures TreeAt(files, root).Keys == Below(files, root)
    ensures forall rel: Path :: rel in TreeAt(files, root) <==> root + rel in files
    ensures forall rel: Path :: rel in TreeAt(files, root) ==> TreeAt(files, root)[rel] == files[root + rel]
  {
    BelowMeans(files, root);
  }

  // Nothing differs outside the root.
  ghost predicate SameOutside(a: Files, b: Files, root: Path) {
    forall p :: !IsUnder(p, root) ==> (p in a <==> p in b) && (p in a && p in b ==> a[p] == b[p])
  }

  lemma SeparateTreeKept(a: Files, b: Files, root: Path, other: Path)
    requires SameOutside(a, b, root) && Separate(root, other)
    ensures TreeAt(a, other) == TreeAt(b, other)
  {
    TreeAtMeans(a, other);
    TreeAtMeans(b, other);
    forall rel: Path
      ensures rel in TreeAt(a, other) <==> rel in TreeAt(b, other)
      ensures rel in TreeAt(a, other) ==> TreeAt(a, other)[rel] == TreeAt(b, other)[rel]
    {
      SeparateRootsShareNothing(other + rel, other, root);
    }
  }

  lemma SameBelow(root: Path, a: Path, b: Path)
    ensures root + a == root + b ==> a == b
  {
    assert (root + a)[|root|..] == a && (root + b)[|root|..] == b;
  }

  lemma PutAt(files: Files, root: Path, rel: Path, content: Content)
    ensures TreeAt(files[root + rel := content], root) == TreeAt(files, root)[rel := content]
    ensures SameOutside(files[root + rel := content], files, root)
  {
    var now := files[root + rel := content];
    TreeAtMeans(files, root);
    TreeAtMeans(now, root);
    forall other: Path
      ensures other in TreeAt(now, root) <==> other in TreeAt(files, root)[rel := content]
      ensures other in TreeAt(now, root) ==> TreeAt(now, root)[other] == TreeAt(files, root)[rel := content][other]
    {
      SameBelow(root, other, rel);
    }
  }

  function Placed(root: Path, tree: Tree): set<Path> {
    set rel | rel in tree :: root + rel
  }

  // The disk with exactly this tree at the root.
  function WithTree(files: Files, root: Path, tree: Tree): (r: Files)
    ensures TreeAt(r, root) == tree && SameOutside(r, files, root)
  {
    var r := map p | p in files.Keys + Placed(root, tree) && (IsUnder(p, root) ==> p[|root|..] in tree)
      :: if IsUnder(p, root) then tree[p[|root|..]] else files[p];
    WithTreeHolds(r, files, root, tree);
    r
  }

  lemma WithTreeHolds(r: Files, files: Files, root: Path, tree: Tree)
    requires forall p :: p in r <==> p in files.Keys + Placed(root, tree) && (IsUnder(p, root) ==> p[|root|..] in tree)
    requires forall p :: p in r ==> r[p] == if IsUnder(p, root) then tree[p[|root|..]] else files[p]
    ensures TreeAt(r, root) == tree && SameOutside(r, files, root)
  {
    TreeAtMeans(r, root);
    forall rel: Path
      ensures rel in TreeAt(r, root) <==> rel in tree
      ensures rel in tree ==> TreeAt(r, root)[rel] == tree[rel]
    {
      assert (root + rel)[|root|..] == rel && IsUnder(root + rel, root);
      assert rel in tree ==> root + rel in Placed(root, tree);
    }
  }

  // ---------- what is published ----------

  // The staged tree once its marker is replaced and the artifact is written.
  function Finished(upgraded: Tree, payload: Payload, artifactId: string): Tree {
    (upgraded - {MARKER})[MARKER := Marker(artifactId)][ArtifactFile(artifactId) := Artifact(payload, artifactId)]
  }

  // The roots of one migration.
  datatype Roots = Roots(source: Path, staging: Path, target: Path)

  // The trees that the staging directory holds one after another.
  datatype Stages = Stages(moved: Tree, upgraded: Tree)

  ghost predicate Staged(tools: Tools, original: Tree, stages: Stages, stores: nat, roots: Roots) {
    && IsRelocated(tools.urls, original, stages.moved, roots.staging, roots.source, roots.staging)
    && tools.hydrates(roots.staging, stages.moved) && tools.upgrade(stages.moved) == Some((stages.upgraded, stores))
  }

  ghost predicate Published(
    tools: Tools, original: Tree, stages: Stages, result: Tree, payload: Payload, roots: Roots) {
    && Staged(tools, original, stages, payload.storeCount, roots)
    && payload.source == roots.source && payload.target == roots.target
    && payload.sourceHashBefore == payload.sourceHashAfter == tools.hash(original)
    && payload.startedAt <= payload.completedAt
    && IsRelocated(tools.urls, Finished(stages.upgraded, payload, tools.payloadId(payload)), result, roots.staging,
      roots.staging, roots.target)
  }

  // `readLegacyV1Marker`
  predicate IsLegacy(tree: Tree) {
    MARKER in tree && tree[MARKER] == LegacyMarker
  }

  // `validateMigratedRoot`
  predicate Verified(tools: Tools, tree: Tree, root: Path, stores: nat) {
    && MARKER in tree && tree[MARKER].Marker?
    && tools.storesVerified(tree, stores) && tools.hydrates(root, tree)
  }

  datatype Outcome = Done(payload: Payload, artifactId: string) | Refused(failure: Failure) | Crashed

  // `readAndValidateExistingMigration`
  function ReadExisting(tools: Tools, tree: Tree, source: Path, target: Path, sourceHash: string): Outcome {
    if MARKER !in tree || !tree[MARKER].Marker? then Refused(ForeignTarget)
    else
      var id := tree[MARKER].artifactId;
      if ArtifactFile(id) !in tree || !tree[ArtifactFile(id)].Artifact? then Refused(Provenance)
      else
        var artifact := tree[ArtifactFile(id)];
        var payload := artifact.payload;
        if artifact.artifactId != id || tools.payloadId(payload) != id || payload.source != source
          || payload.target != target
           || payload.sourceHashBefore != sourceHash || payload.sourceHashAfter != sourceHash then Refused(Provenance)
        else if !Verified(tools, tree, target, payload.storeCount) then Refused(NotVerified)
        else Done(payload, id)
  }

  // The marker and the artifact are not touched by the last relocation.
  lemma MarkerAndArtifactStay(
    tools: Tools, original: Tree, stages: Stages, result: Tree, payload: Payload, roots: Roots)
    requires Published(tools, original, stages, result, payload, roots)
    ensures var id := tools.payloadId(payload);
      && MARKER in result && result[MARKER] == Marker(id)
      && ArtifactFile(id) in result && result[ArtifactFile(id)] == Artifact(payload, id)
      && !IsReferenceFile(roots.staging + MARKER) && !IsReferenceFile(roots.staging + ArtifactFile(id))
  {
    var id := tools.payloadId(payload);
    var finished := Finished(stages.upgraded, payload, id);
    assert MARKER != ArtifactFile(id);
    assert finished[MARKER] == Marker(id);
    assert finished[ArtifactFile(id)] == Artifact(payload, id);
    assert RelocateContent(tools.urls, roots.staging + MARKER, finished[MARKER], roots.staging, roots.target).Ok?;
    var file := ArtifactFile(id);
    assert RelocateContent(tools.urls, roots.staging + file, finished[file], roots.staging, roots.target).Ok?;
  }

  // A published and verified target is recognised by a later run on the same source: the same artifact.
  lemma PublishedIsRecognised(
    tools: Tools, original: Tree, stages: Stages, result: Tree, payload: Payload, roots: Roots)
    requires Published(tools, original, stages, result, payload, roots)
    requires Verified(tools, result, roots.target, payload.storeCount)
    ensures ReadExisting(tools, result, roots.source, roots.target, tools.hash(original)) ==
      Done(payload, tools.payloadId(payload))
  {
    MarkerAndArtifactStay(tools, original, stages, result, payload, roots);
  }

  // Every reference file of the published tree is the one of the source with each reference relocated
  // from the source root to the target root directly, although it went through the staging root.
  lemma PublishedReferences(
    tools: Tools, original: Tree, stages: Stages, result: Tree, payload: Payload, roots: Roots, rel: Path)
    requires Lawful(tools.urls) && UpgradeIsLocal(tools, roots.staging)
    requires Published(tools, original, stages, result, payload, roots) && IsReferenceFile(roots.staging + rel)
    ensures rel in result <==> rel in original
    ensures rel in result ==>
      RelocateContent(tools.urls, roots.staging + rel, original[rel], roots.source, roots.target) ==
        Result<Content, Failure>.Ok(result[rel])
  {
    var id := tools.payloadId(payload);
    MarkerAndArtifactStay(tools, original, stages, result, payload, roots);
    assert SameReferences(stages.moved, stages.upgraded, roots.staging);
    var finished := Finished(stages.upgraded, payload, id);
    assert rel in finished <==> rel in stages.upgraded;
    if rel in original {
      assert finished[rel] == stages.upgraded[rel] == stages.moved[rel];
      RelocateContentTwice(tools.urls, roots.staging + rel, original[rel], roots.source, roots.staging, roots.target);
    }
  }

  // In particular each checkpoint reference below the source root becomes its counterpart below the target.
  lemma {:induction false} CheckpointCounterparts(urls: Urls, uris: seq<string>, source: Path, target: Path, i: nat)
    requires Lawful(urls) && RelocateAll(urls, uris, source, target).Ok? && i < |uris|
    ensures var moved := RelocateAll(urls, uris, source, target).value;
      |moved| == |uris|
      && exists rel: Path ::
        rel != [] && urls.fromUrl(uris[i]) == Some(source + rel) && urls.fromUrl(moved[i]) == Some(target + rel)
  {
    if i == 0 {
      RelocatedIsCounterpart(urls, uris[0], source, target);
      SameNumber(urls, uris, source, target);
    } else {
      CheckpointCounterparts(urls, uris[1..], source, target, i - 1);
    }
  }

  lemma {:induction false} SameNumber(urls: Urls, uris: seq<string>, source: Path, target: Path)
    requires RelocateAll(urls, uris, source, target).Ok?
    ensures |RelocateAll(urls, uris, source, target).value| == |uris|
  {
    if uris != [] {
      SameNumber(urls, uris[1..], source, target);
    }
  }

  // ---------- the run ----------

  datatype Progress = Alive | Stopped | Failed(failure: Failure)

  // The reference files of a tree standing at a root.
  function References(tree: Tree, root: Path): set<Path> {
    set rel | rel in tree && IsReferenceFile(root + rel)
  }

  lemma SeparateStaging(files: Files, roots: Roots)
    requires Separate(roots.source, roots.target) && IsSibling(roots)
    requires TreeAt(files, roots.staging) == map[] && TreeAt(files, roots.source) != map[]
    ensures Separate(roots.staging, roots.source) && Separate(roots.staging, roots.target)
  {
    NotBelowEmpty(files, roots.source, roots.staging);
    SiblingUnder(roots);
  }

  // Siblings lie below the same other directories.
  lemma SiblingUnder(roots: Roots)
    requires IsSibling(roots)
    ensures IsUnder(roots.staging, roots.source) && roots.source != roots.staging ==>
      IsUnder(roots.target, roots.source)
  {
    var parent := roots.target[..|roots.target| - 1];
    assert roots.staging[..|roots.staging| - 1] == parent;
    assert parent <= roots.target;
    if IsUnder(roots.staging, roots.source) && roots.source != roots.staging {
      assert roots.source == roots.staging[..|roots.source|] == parent[..|roots.source|];
    }
  }

  lemma Deeper(full: Path, empty: Path, rel: Path)
    ensures IsUnder(full, empty) ==> exists low: Path :: full + rel == empty + low
  {
    if IsUnder(full, empty) {
      assert full + rel == empty + (full[|empty|..] + rel);
    }
  }

  // A root that holds a file does not lie below one that holds none.
  lemma NotBelowEmpty(files: Files, full: Path, empty: Path)
    requires TreeAt(files, empty) == map[] && TreeAt(files, full) != map[]
    ensures !IsUnder(full, empty)
  {
    TreeAtMeans(files, empty);
    TreeAtMeans(files, full);
    var rel :| rel in TreeAt(files, full);
    assert full + rel in files;
    Deeper(full, empty, rel);
  }

  // `mkdtempSync` beside the target: another name in the same directory.
  predicate IsSibling(roots: Roots) {
    && roots.target != [] && |roots.staging| == |roots.target|
    && roots.staging[..|roots.target| - 1] == roots.target[..|roots.target| - 1]
    && roots.staging != roots.target
  }

  // ---------- when a run succeeds, and why it fails ----------

  // A reference of the tree cannot be relocated, for this reason.
  ghost predicate Unrelocatable(
    urls: Urls, tree: Tree, root: Path, from: Path, to: Path, failure: Failure)
  {
    exists rel :: rel in tree && RelocateContent(urls, root + rel, tree[rel], from, to) == Error(failure)
  }

  ghost predicate StageFails(tools: Tools, original: Tree, roots: Roots, failure: Failure) {
    || Unrelocatable(tools.urls, original, roots.staging, roots.source, roots.staging, failure)
    || exists moved :: IsRelocated(tools.urls, original, moved, roots.staging, roots.source, roots.staging)
         && (if !tools.hydrates(roots.staging, moved) then failure == NotHydrated
             else tools.upgrade(moved).None? && failure == StoreUpgradeFailed)
  }

  // The marker and the artifact cannot be written, or a reference cannot be pointed at the target.
  ghost predicate FinishFails(tools: Tools, upgraded: Tree, payload: Payload, roots: Roots, failure: Failure) {
    var id := tools.payloadId(payload);
    if ArtifactFile(id) in upgraded then failure == ArtifactExists
    else Unrelocatable(
           tools.urls, Finished(upgraded, payload, id), roots.staging, roots.staging, roots.target, failure)
  }

  function PayloadFor(tools: Tools, original: Tree, roots: Roots, times: (int, int), stores: nat): Payload {
    var hash := tools.hash(original);
    Payload(times.0, if times.0 <= times.1 then times.1 else times.0, roots.source, roots.target, hash, hash, stores)
  }

  // The trees of a run that gets as far as the rename: the copy relocated to staging, upgraded, and
  // finished for the target.
  ghost predicate Prepared(
    tools: Tools, original: Tree, sourceAgain: Tree, roots: Roots, times: (int, int), stages: Stages, stores: nat,
    result: Tree)
  {
    var payload := PayloadFor(tools, original, roots, times, stores);
    && Staged(tools, original, stages, stores, roots)
    && tools.hash(sourceAgain) == tools.hash(original)
    && ArtifactFile(tools.payloadId(payload)) !in stages.upgraded
    && IsRelocated(tools.urls, Finished(stages.upgraded, payload, tools.payloadId(payload)), result,
         roots.staging, roots.staging, roots.target)
  }

  ghost predicate Succeeds(
    tools: Tools, original: Tree, sourceAgain: Tree, roots: Roots, times: (int, int), stages: Stages, stores: nat,
    result: Tree)
  {
    && Prepared(tools, original, sourceAgain, roots, times, stages, stores, result)
    && Verified(tools, result, roots.target, stores)
  }

  ghost predicate IsSuccess(
    tools: Tools, original: Tree, sourceAgain: Tree, roots: Roots, times: (int, int), result: Tree, payload: Payload)
  {
    exists stages, stores ::
      Succeeds(tools, original, sourceAgain, roots, times, stages, stores, result)
      && payload == PayloadFor(tools, original, roots, times, stores)
  }

  // The one reason for which a run fails.
  ghost predicate Fails(
    tools: Tools, original: Tree, sourceAgain: Tree, roots: Roots, times: (int, int), failure: Failure)
  {
    || StageFails(tools, original, roots, failure)
    || exists stages, stores :: Staged(tools, original, stages, stores, roots)
         && FailsLater(tools, original, sourceAgain, roots, times, stages, stores, failure)
  }

  ghost predicate FailsLater(
    tools: Tools, original: Tree, sourceAgain: Tree, roots: Roots, times: (int, int), stages: Stages, stores: nat,
    failure: Failure)
  {
    var payload := PayloadFor(tools, original, roots, times, stores);
    if tools.hash(sourceAgain) != tools.hash(original) then failure == SourceChanged
    else
      || FinishFails(tools, stages.upgraded, payload, roots, failure)
      || exists result ::
           IsRelocated(tools.urls, Finished(stages.upgraded, payload, tools.payloadId(payload)), result,
             roots.staging, roots.staging, roots.target)
           && !Verified(tools, result, roots.target, stores) && failure == NotVerified
  }

  // Files copied, references rewritten, and the one write of the upgrade.
  function StageWrites(original: Tree, roots: Roots): nat {
    |original| + |References(original, roots.staging)| + 1
  }

  // The marker twice, the artifact, and the references again.
  function FinishWrites(tools: Tools, upgraded: Tree, payload: Payload, roots: Roots): nat {
    3 + |References(Finished(upgraded, payload, tools.payloadId(payload)), roots.staging)|
  }

  // All of them, and the rename.
  function Writes(tools: Tools, original: Tree, roots: Roots, times: (int, int), stages: Stages, stores: nat): nat {
    StageWrites(original, roots)
    + FinishWrites(tools, stages.upgraded, PayloadFor(tools, original, roots, times, stores), roots) + 1
  }

  lemma {:induction false} RelocatedIsUnique(
    urls: Urls, tree: Tree, a: Tree, b: Tree, root: Path, from: Path, to: Path)
    requires IsRelocated(urls, tree, a, root, from, to) && IsRelocated(urls, tree, b, root, from, to)
    ensures a == b
  {
    forall rel | rel in tree ensures a[rel] == b[rel] {
    }
  }

  lemma {:induction false} NotBoth(
    urls: Urls, tree: Tree, a: Tree, root: Path, from: Path, to: Path, failure: Failure)
    requires IsRelocated(urls, tree, a, root, from, to)
    ensures !Unrelocatable(urls, tree, root, from, to, failure)
  {
  }

  lemma {:induction false} StagedIsUnique(
    tools: Tools, original: Tree, a: Stages, m: nat, b: Stages, n: nat, roots: Roots)
    requires Staged(tools, original, a, m, roots) && Staged(tools, original, b, n, roots)
    ensures a == b && m == n
  {
    RelocatedIsUnique(tools.urls, original, a.moved, b.moved, roots.staging, roots.source, roots.staging);
  }

  lemma {:induction false} StagedDoesNotFail(
    tools: Tools, original: Tree, stages: Stages, stores: nat, roots: Roots, failure: Failure)
    requires Staged(tools, original, stages, stores, roots)
    ensures !StageFails(tools, original, roots, failure)
  {
    NotBoth(tools.urls, original, stages.moved, roots.staging, roots.source, roots.staging, failure);
    forall moved | IsRelocated(tools.urls, original, moved, roots.staging, roots.source, roots.staging)
      ensures moved == stages.moved
    {
      RelocatedIsUnique(tools.urls, original, moved, stages.moved, roots.staging, roots.source, roots.staging);
    }
  }

  lemma {:induction false} LaterDoesNotFail(
    tools: Tools, original: Tree, sourceAgain: Tree, roots: Roots, times: (int, int), stages: Stages, stores: nat,
    result: Tree, failure: Failure)
    requires Succeeds(tools, original, sourceAgain, roots, times, stages, stores, result)
    ensures !FailsLater(tools, original, sourceAgain, roots, times, stages, stores, failure)
  {
    var payload := PayloadFor(tools, original, roots, times, stores);
    var finished := Finished(stages.upgraded, payload, tools.payloadId(payload));
    NotBoth(tools.urls, finished, result, roots.staging, roots.staging, roots.target, failure);
    forall other | IsRelocated(tools.urls, finished, other, roots.staging, roots.staging, roots.target)
      ensures other == result
    {
      RelocatedIsUnique(tools.urls, finished, other, result, roots.staging, roots.staging, roots.target);
    }
  }

  // No run can both succeed and have a reason to fail.
  lemma {:induction false} SuccessExcludesFailure(
    tools: Tools, original: Tree, sourceAgain: Tree, roots: Roots, times: (int, int), stages: Stages, stores: nat,
    result: Tree, failure: Failure)
    requires Succeeds(tools, original, sourceAgain, roots, times, stages, stores, result)
    ensures !Fails(tools, original, sourceAgain, roots, times, failure)
  {
    StagedDoesNotFail(tools, original, stages, stores, roots, failure);
    LaterDoesNotFail(tools, original, sourceAgain, roots, times, stages, stores, result, failure);
    forall a, m | Staged(tools, original, a, m, roots) ensures a == stages && m == stores {
      StagedIsUnique(tools, original, a, m, stages, stores, roots);
    }
  }

  // The run could succeed and the power lasts for all of its writes.
  ghost predicate EnoughPower(
    tools: Tools, original: Tree, sourceAgain: Tree, roots: Roots, times: (int, int), power: nat)
  {
    exists stages, stores, result ::
      Succeeds(tools, original, sourceAgain, roots, times, stages, stores, result)
      && power >= Writes(tools, original, roots, times, stages, stores)
  }

  // What a run from nothing answers, and when: in terms of the trees, the tools and the power.
  ghost predicate IsExplained(
    tools: Tools, original: Tree, sourceAgain: Tree, roots: Roots, times: (int, int), power: nat, after: Files,
    r: Outcome)
  {
    match r
    case Done(payload, id) =>
      && IsSuccess(tools, original, sourceAgain, roots, times, TreeAt(after, roots.target), payload)
      && id == tools.payloadId(payload)
    case Refused(failure) => Fails(tools, original, sourceAgain, roots, times, failure)
    case Crashed => !EnoughPower(tools, original, sourceAgain, roots, times, power)
  }

  // With the power it needs, a run that can succeed does.
  lemma {:induction false} RunSucceeds(
    tools: Tools, original: Tree, sourceAgain: Tree, roots: Roots, times: (int, int), power: nat, after: Files,
    r: Outcome)
    requires IsExplained(tools, original, sourceAgain, roots, times, power, after, r)
    ensures EnoughPower(tools, original, sourceAgain, roots, times, power) ==> r.Done?
  {
    if EnoughPower(tools, original, sourceAgain, roots, times, power) && r.Refused? {
      var stages, stores, result :| Succeeds(tools, original, sourceAgain, roots, times, stages, stores, result);
      SuccessExcludesFailure(tools, original, sourceAgain, roots, times, stages, stores, result, r.failure);
    }
  }

  lemma {:induction false} FailureNeedsNoPower(
    tools: Tools, original: Tree, sourceAgain: Tree, roots: Roots, times: (int, int), power: nat, failure: Failure)
    requires Fails(tools, original, sourceAgain, roots, times, failure)
    ensures !EnoughPower(tools, original, sourceAgain, roots, times, power)
  {
    if EnoughPower(tools, original, sourceAgain, roots, times, power) {
      var stages, stores, result :| Succeeds(tools, original, sourceAgain, roots, times, stages, stores, result);
      SuccessExcludesFailure(tools, original, sourceAgain, roots, times, stages, stores, result, failure);
    }
  }

  lemma {:induction false} OnlyThisPower(
    tools: Tools, original: Tree, sourceAgain: Tree, roots: Roots, times: (int, int), stages: Stages, stores: nat,
    power: nat)
    requires Staged(tools, original, stages, stores, roots)
    ensures EnoughPower(tools, original, sourceAgain, roots, times, power) ==>
      power >= Writes(tools, original, roots, times, stages, stores)
      && exists result :: Succeeds(tools, original, sourceAgain, roots, times, stages, stores, result)
  {
    if EnoughPower(tools, original, sourceAgain, roots, times, power) {
      var a, m, result :| Succeeds(tools, original, sourceAgain, roots, times, a, m, result)
        && power >= Writes(tools, original, roots, times, a, m);
      StagedIsUnique(tools, original, a, m, stages, stores, roots);
      assert Succeeds(tools, original, sourceAgain, roots, times, stages, stores, result);
    }
  }

  lemma {:induction false} StageEnds(
    tools: Tools, original: Tree, sourceAgain: Tree, roots: Roots, times: (int, int), power: nat, r: Progress)
    requires r == Stopped ==> power < StageWrites(original, roots)
    requires r.Failed? ==> StageFails(tools, original, roots, r.failure)
    ensures r == Stopped ==> !EnoughPower(tools, original, sourceAgain, roots, times, power)
    ensures r.Failed? ==> Fails(tools, original, sourceAgain, roots, times, r.failure)
  {
  }

  lemma {:induction false} FinishEnds(
    tools: Tools, original: Tree, sourceAgain: Tree, roots: Roots, times: (int, int), power: nat, stages: Stages,
    stores: nat, r: Progress)
    requires Staged(tools, original, stages, stores, roots) && tools.hash(sourceAgain) == tools.hash(original)
    requires var payload := PayloadFor(tools, original, roots, times, stores);
      && (r.Failed? ==> FinishFails(tools, stages.upgraded, payload, roots, r.failure))
      && (r == Stopped && ArtifactFile(tools.payloadId(payload)) !in stages.upgraded ==>
           power < StageWrites(original, roots) + FinishWrites(tools, stages.upgraded, payload, roots))
    ensures r == Stopped ==> !EnoughPower(tools, original, sourceAgain, roots, times, power)
    ensures r.Failed? ==> Fails(tools, original, sourceAgain, roots, times, r.failure)
  {
    OnlyThisPower(tools, original, sourceAgain, roots, times, stages, stores, power);
    if r.Failed? {
      assert FailsLater(tools, original, sourceAgain, roots, times, stages, stores, r.failure);
    }
  }

  lemma {:induction false} PreparedIsPublished(
    tools: Tools, original: Tree, sourceAgain: Tree, roots: Roots, times: (int, int), stages: Stages, stores: nat,
    result: Tree)
    requires Prepared(tools, original, sourceAgain, roots, times, stages, stores, result)
    ensures var payload := PayloadFor(tools, original, roots, times, stores);
      IsPublished(tools, original, result, payload, roots)
  {
    assert Published(tools, original, stages, result, PayloadFor(tools, original, roots, times, stores), roots);
  }

  lemma {:induction false} PublishEnds(
    tools: Tools, original: Tree, sourceAgain: Tree, roots: Roots, times: (int, int), power: nat, stages: Stages,
    stores: nat, result: Tree, r: Progress)
    requires Prepared(tools, original, sourceAgain, roots, times, stages, stores, result)
    requires r == Alive ==> Verified(tools, result, roots.target, stores)
    requires r.Failed? ==> r.failure == NotVerified && !Verified(tools, result, roots.target, stores)
    requires r == Stopped && Verified(tools, result, roots.target, stores) ==>
      power < Writes(tools, original, roots, times, stages, stores)
    ensures var payload := PayloadFor(tools, original, roots, times, stores);
      match r
      case Alive => IsSuccess(tools, original, sourceAgain, roots, times, result, payload)
      case Failed(failure) => Fails(tools, original, sourceAgain, roots, times, failure)
      case Stopped => !EnoughPower(tools, original, sourceAgain, roots, times, power)
  {
    match r
    case Alive =>
      assert Succeeds(tools, original, sourceAgain, roots, times, stages, stores, result);
    case Failed(failure) =>
      assert FailsLater(tools, original, sourceAgain, roots, times, stages, stores, failure);
    case Stopped =>
      OnlyThisPower(tools, original, sourceAgain, roots, times, stages, stores, power);
      OnlyThisResult(tools, original, sourceAgain, roots, times, stages, stores, result);
  }

  lemma {:induction false} OnlyThisResult(
    tools: Tools, original: Tree, sourceAgain: Tree, roots: Roots, times: (int, int), stages: Stages, stores: nat,
    result: Tree)
    requires Prepared(tools, original, sourceAgain, roots, times, stages, stores, result)
    ensures forall other :: Succeeds(tools, original, sourceAgain, roots, times, stages, stores, other) ==>
      other == result && Verified(tools, result, roots.target, stores)
  {
    var payload := PayloadFor(tools, original, roots, times, stores);
    var finished := Finished(stages.upgraded, payload, tools.payloadId(payload));
    forall other | Succeeds(tools, original, sourceAgain, roots, times, stages, stores, other)
      ensures other == result
    {
      RelocatedIsUnique(tools.urls, finished, other, result, roots.staging, roots.staging, roots.target);
    }
  }

  lemma {:induction false} DoneEnds(
    tools: Tools, start: Files, after: Files, sourceAgain: Tree, roots: Roots, times: (int, int), power: nat,
    payload: Payload)
    requires SameElsewhere(after, start, roots.staging, roots.target)
    requires IsPublished(tools, TreeAt(start, roots.source), TreeAt(after, roots.target), payload, roots)
    requires TreeAt(after, roots.staging) == map[]
    requires Verified(tools, TreeAt(after, roots.target), roots.target, payload.storeCount)
    requires IsSuccess(
      tools, TreeAt(start, roots.source), sourceAgain, roots, times, TreeAt(after, roots.target), payload)
    ensures var r := Done(payload, tools.payloadId(payload));
      && FreshOutcome(tools, start, after, r, roots)
      && IsExplained(tools, TreeAt(start, roots.source), sourceAgain, roots, times, power, after, r)
  {
  }

  lemma {:induction false} UndoneEnds(
    tools: Tools, start: Files, after: Files, sourceAgain: Tree, roots: Roots, times: (int, int), power: nat,
    payload: Payload, r: Outcome)
    requires SameElsewhere(after, start, roots.staging, roots.target)
    requires TreeAt(after, roots.target) == map[]
      || IsPublished(tools, TreeAt(start, roots.source), TreeAt(after, roots.target), payload, roots)
    requires match r
      case Done(_, _) => false
      case Refused(failure) =>
        after == start && Fails(tools, TreeAt(start, roots.source), sourceAgain, roots, times, failure)
      case Crashed => !EnoughPower(tools, TreeAt(start, roots.source), sourceAgain, roots, times, power)
    ensures FreshOutcome(tools, start, after, r, roots)
    ensures IsExplained(tools, TreeAt(start, roots.source), sourceAgain, roots, times, power, after, r)
  {
  }

  class Runtime {
    var files: Files
    // Writes that still happen before the process stops.
    var power: nat

    method Put(root: Path, rel: Path, content: Content) returns (alive: bool)
      modifies this
      ensures SameOutside(files, old(files), root)
      ensures alive == (old(power) > 0) && power == if alive then old(power) - 1 else 0
      ensures TreeAt(files, root) ==
        if alive then TreeAt(old(files), root)[rel := content] else TreeAt(old(files), root)
    {
      if power == 0 {
        return false;
      }
      PutAt(files, root, rel, content);
      power := power - 1;
      files := files[root + rel := content];
      return true;
    }

    // `cpSync`, file by file.
    method CopyTree(from: Path, to: Path) returns (alive: bool)
      requires Separate(from, to) && TreeAt(files, to) == map[]
      modifies this
      ensures SameOutside(files, old(files), to)
      ensures alive ==> TreeAt(files, to) == TreeAt(old(files), from)
      ensures if alive then power == old(power) - |TreeAt(old(files), from)|
        else power == 0 && old(power) < |TreeAt(old(files), from)|
    {
      var tree := TreeAt(files, from);
      var pending := tree.Keys;
      while pending != {}
        invariant pending <= tree.Keys
        invariant SameOutside(files, old(files), to)
        invariant IsPart(TreeAt(files, to), tree, pending)
        invariant old(power) - power == |tree| - |pending|
      {
        var rel :| rel in pending;
        ghost var before := files;
        PartGrows(TreeAt(files, to), tree, pending, rel);
        alive := Put(to, rel, tree[rel]);
        SameOutsideStill(files, before, old(files), to);
        if !alive {
          return false;
        }
        pending := pending - {rel};
      }
      PartDone(TreeAt(files, to), tree);
      return true;
    }

    // `relocateProjectionSnapshotReferences`, each file replaced atomically.
    method RelocateReferences(urls: Urls, root: Path, from: Path, to: Path) returns (r: Progress)
      modifies this
      ensures SameOutside(files, old(files), root)
      ensures r == Alive ==> IsRelocated(urls, TreeAt(old(files), root), TreeAt(files, root), root, from, to)
      ensures r.Failed? ==> !Relocatable(urls, TreeAt(old(files), root), root, from, to)
      ensures r.Failed? ==> Unrelocatable(urls, TreeAt(old(files), root), root, from, to, r.failure)
      ensures r == Alive ==> power == old(power) - |References(TreeAt(old(files), root), root)|
      ensures r == Stopped ==> power == 0 && old(power) < |References(TreeAt(old(files), root), root)|
    {
      var tree := TreeAt(files, root);
      var pending := References(tree, root);
      while pending != {}
        invariant pending <= tree.Keys
        invariant SameOutside(files, old(files), root)
        invariant IsPartlyRelocated(urls, TreeAt(files, root), tree, pending, root, from, to)
        invariant old(power) - power == |References(tree, root)| - |pending|
      {
        var rel :| rel in pending;
        var moved := RelocateContent(urls, root + rel, tree[rel], from, to);
        if moved.Error? {
          return Failed(moved.error);
        }
        ghost var before := files;
        PartlyRelocatedGrows(urls, TreeAt(files, root), tree, pending, root, from, to, rel);
        var alive := Put(root, rel, moved.value);
        SameOutsideStill(files, before, old(files), root);
        if !alive {
          return Stopped;
        }
        pending := pending - {rel};
      }
      return Alive;
    }

    // `rmSync(root, { recursive: true, force: true })`
    method RemoveTree(root: Path) returns (alive: bool)
      modifies this
      ensures SameOutside(files, old(files), root)
      ensures alive ==> TreeAt(files, root) == map[]
      ensures !alive ==> power == 0
    {
      var pending := TreeAt(files, root).Keys;
      while pending != {}
        invariant SameOutside(files, old(files), root)
        invariant TreeAt(files, root).Keys == pending
      {
        if power == 0 {
          return false;
        }
        var rel :| rel in pending;
        power := power - 1;
        DropAt(files, root, rel);
        files := files - {root + rel};
        pending := pending - {rel};
      }
      return true;
    }
  
    // The source is copied and rewritten in the staging directory.
    method Stage(tools: Tools, roots: Roots) returns (r: Progress, stages: Stages, stores: nat)
      requires Separate(roots.source, roots.staging) && TreeAt(files, roots.staging) == map[]
      modifies this
      ensures SameOutside(files, old(files), roots.staging)
      ensures r == Alive ==> Staged(tools, TreeAt(old(files), roots.source), stages, stores, roots)
      ensures r == Alive ==> TreeAt(files, roots.staging) == stages.upgraded
      ensures r == Alive ==> power == old(power) - StageWrites(TreeAt(old(files), roots.source), roots)
      ensures r == Stopped ==> power == 0 && old(power) < StageWrites(TreeAt(old(files), roots.source), roots)
      ensures r.Failed? ==> StageFails(tools, TreeAt(old(files), roots.source), roots, r.failure)
    {
      stages, stores := Stages(map[], map[]), 0;
      var alive := CopyTree(roots.source, roots.staging);
      if !alive {
        return Stopped, stages, stores;
      }
      SeparateTreeKept(files, old(files), roots.staging, roots.source);
      if tools.hash(TreeAt(files, roots.staging)) != tools.hash(TreeAt(files, roots.source)) {
        return Failed(CopyDiffers), stages, stores;
      }
      r := RelocateReferences(tools.urls, roots.staging, roots.source, roots.staging);
      if r != Alive {
        return r, stages, stores;
      }
      var moved := TreeAt(files, roots.staging);
      if !tools.hydrates(roots.staging, moved) {
        return Failed(NotHydrated), stages, stores;
      }
      var upgrade := tools.upgrade(moved);
      if upgrade.None? {
        return Failed(StoreUpgradeFailed), stages, stores;
      }
      stages, stores := Stages(moved, upgrade.value.0), upgrade.value.1;
      alive := Replace(roots.staging, stages.upgraded);
      return if alive then Alive else Stopped, stages, stores;
    }

    // The upgrade of the event stores as one write.
    method Replace(root: Path, tree: Tree) returns (alive: bool)
      modifies this
      ensures SameOutside(files, old(files), root)
      ensures alive ==> TreeAt(files, root) == tree
      ensures alive == (old(power) > 0) && power == if alive then old(power) - 1 else 0
    {
      if power == 0 {
        return false;
      }
      power := power - 1;
      files := WithTree(files, root, tree);
      return true;
    }

    // The marker is replaced, the artifact is written, and the references are pointed at the target.
    method Finish(tools: Tools, roots: Roots, upgraded: Tree, payload: Payload) returns (r: Progress)
      requires TreeAt(files, roots.staging) == upgraded
      modifies this
      ensures SameOutside(files, old(files), roots.staging)
      ensures r == Alive ==>
        var finished := Finished(upgraded, payload, tools.payloadId(payload));
        IsRelocated(tools.urls, finished, TreeAt(files, roots.staging), roots.staging, roots.staging, roots.target)
      ensures r == Alive ==> power == old(power) - FinishWrites(tools, upgraded, payload, roots)
      ensures r == Alive ==> ArtifactFile(tools.payloadId(payload)) !in upgraded
      ensures r == Stopped ==> power == 0
      ensures r == Stopped && ArtifactFile(tools.payloadId(payload)) !in upgraded ==>
        old(power) < FinishWrites(tools, upgraded, payload, roots)
      ensures r.Failed? ==> FinishFails(tools, upgraded, payload, roots, r.failure)
    {
      var id := tools.payloadId(payload);
      var alive := Drop(roots.staging, MARKER);
      if !alive {
        return Stopped;
      }
      alive := Put(roots.staging, MARKER, Marker(id));
      if !alive {
        return Stopped;
      }
      if ArtifactFile(id) in TreeAt(files, roots.staging) {
        return Failed(ArtifactExists);
      }
      alive := Put(roots.staging, ArtifactFile(id), Artifact(payload, id));
      if !alive {
        return Stopped;
      }
      r := RelocateReferences(tools.urls, roots.staging, roots.staging, roots.target);
    }

    // `unlinkSync`
    method Drop(root: Path, rel: Path) returns (alive: bool)
      modifies this
      ensures SameOutside(files, old(files), root)
      ensures TreeAt(files, root) == if alive then TreeAt(old(files), root) - {rel} else TreeAt(old(files), root)
      ensures alive == (old(power) > 0) && power == if alive then old(power) - 1 else 0
    {
      if power == 0 {
        return false;
      }
      power := power - 1;
      DropAt(files, root, rel);
      files := files - {root + rel};
      return true;
    }

    // `renameSync` of a whole directory to a place where nothing is.
    method Rename(from: Path, to: Path) returns (alive: bool)
      requires Separate(from, to) && TreeAt(files, to) == map[]
      modifies this
      ensures SameElsewhere(files, old(files), from, to)
      ensures TreeAt(files, to) == if alive then TreeAt(old(files), from) else map[]
      ensures TreeAt(files, from) == if alive then map[] else TreeAt(old(files), from)
      ensures alive == (old(power) > 0) && power == if alive then old(power) - 1 else 0
    {
      if power == 0 {
        return false;
      }
      power := power - 1;
      var there := WithTree(files, to, TreeAt(files, from));
      var gone := WithTree(there, from, map[]);
      SeparateTreeKept(gone, there, from, to);
      files := gone;
      return true;
    }
  
    // Publication by one rename, undone when the published tree does not verify.
    method Publish(tools: Tools, roots: Roots, stores: nat) returns (r: Progress)
      requires Separate(roots.staging, roots.target) && TreeAt(files, roots.target) == map[]
      modifies this
      ensures SameElsewhere(files, old(files), roots.staging, roots.target)
      ensures TreeAt(files, roots.target) == map[] || TreeAt(files, roots.target) == TreeAt(old(files), roots.staging)
      ensures r == Alive ==>
        && TreeAt(files, roots.target) == TreeAt(old(files), roots.staging) && TreeAt(files, roots.staging) == map[]
        && Verified(tools, TreeAt(files, roots.target), roots.target, stores)
      ensures r.Failed? ==> TreeAt(files, roots.target) == map[]
      ensures r.Failed? ==>
        r.failure == NotVerified && !Verified(tools, TreeAt(old(files), roots.staging), roots.target, stores)
      ensures r == Stopped ==> power == 0
      ensures r == Stopped && Verified(tools, TreeAt(old(files), roots.staging), roots.target, stores) ==>
        old(power) == 0
    {
      var alive := Rename(roots.staging, roots.target);
      if !alive {
        return Stopped;
      }
      if !Verified(tools, TreeAt(files, roots.target), roots.target, stores) {
        alive := Rename(roots.target, roots.staging);
        return if alive then Failed(NotVerified) else Stopped;
      }
      return Alive;
    }

    // Everything up to the rename.
    method PrepareStaging(tools: Tools, roots: Roots, startedAt: int, now: int, sourceAgain: Tree)
      returns (r: Progress, payload: Payload, stores: nat, ghost stages: Stages)
      requires Separate(roots.source, roots.staging) && TreeAt(files, roots.staging) == map[]
      modifies this
      ensures SameOutside(files, old(files), roots.staging)
      ensures var original, times := TreeAt(old(files), roots.source), (startedAt, now);
        match r
        case Alive =>
          && payload == PayloadFor(tools, original, roots, times, stores)
          && Prepared(tools, original, sourceAgain, roots, times, stages, stores, TreeAt(files, roots.staging))
          && power == old(power) - (Writes(tools, original, roots, times, stages, stores) - 1)
        case Failed(failure) => Fails(tools, original, sourceAgain, roots, times, failure)
        case Stopped => power == 0 && !EnoughPower(tools, original, sourceAgain, roots, times, old(power))
    {
      var before := tools.hash(TreeAt(files, roots.source));
      ghost var start, original, times, supply := files, TreeAt(files, roots.source), (startedAt, now), power;
      var staged, trees, count := Stage(tools, roots);
      stages, stores := trees, count;
      var migratedAt := if startedAt <= now then now else startedAt;
      payload := Payload(startedAt, migratedAt, roots.source, roots.target, before, before, stores);
      if staged != Alive {
        StageEnds(tools, original, sourceAgain, roots, times, supply, staged);
        return staged, payload, stores, stages;
      }
      if tools.hash(sourceAgain) != before {
        assert FailsLater(tools, original, sourceAgain, roots, times, stages, stores, SourceChanged);
        return Failed(SourceChanged), payload, stores, stages;
      }
      ghost var copied := files;
      r := Finish(tools, roots, trees.upgraded, payload);
      SameOutsideStill(files, copied, start, roots.staging);
      FinishEnds(tools, original, sourceAgain, roots, times, supply, stages, stores, r);
    }

    // The part of the migration that writes, without the removal of the staging directory on failure.
    method CopyAndPublish(tools: Tools, roots: Roots, startedAt: int, now: int, sourceAgain: Tree)
      returns (r: Progress, payload: Payload)
      requires Separate(roots.source, roots.target) && Separate(roots.staging, roots.source)
        && Separate(roots.staging, roots.target)
      requires TreeAt(files, roots.staging) == map[] && TreeAt(files, roots.target) == map[]
      modifies this
      ensures SameElsewhere(files, old(files), roots.staging, roots.target)
      ensures TreeAt(files, roots.target) == map[]
        || IsPublished(tools, TreeAt(old(files), roots.source), TreeAt(files, roots.target), payload, roots)
      ensures r.Failed? ==> TreeAt(files, roots.target) == map[]
      ensures r == Alive ==>
        && IsPublished(tools, TreeAt(old(files), roots.source), TreeAt(files, roots.target), payload, roots)
        && TreeAt(files, roots.staging) == map[]
        && Verified(tools, TreeAt(files, roots.target), roots.target, payload.storeCount)
      ensures var original, times := TreeAt(old(files), roots.source), (startedAt, now);
        match r
        case Alive => IsSuccess(tools, original, sourceAgain, roots, times, TreeAt(files, roots.target), payload)
        case Failed(failure) => Fails(tools, original, sourceAgain, roots, times, failure)
        case Stopped => power == 0 && !EnoughPower(tools, original, sourceAgain, roots, times, old(power))
    {
      ghost var start, original, supply := files, TreeAt(files, roots.source), power;
      var prepared, stores;
      ghost var stages;
      prepared, payload, stores, stages := PrepareStaging(tools, roots, startedAt, now, sourceAgain);
      SeparateTreeKept(files, start, roots.staging, roots.target);
      SameOutsideOne(files, start, roots);
      if prepared != Alive {
        return prepared, payload;
      }
      ghost var result, finished := TreeAt(files, roots.staging), files;
      PreparedIsPublished(tools, original, sourceAgain, roots, (startedAt, now), stages, stores, result);
      r := Publish(tools, roots, stores);
      SameElsewhereStill(files, finished, start, roots);
      PublishEnds(tools, original, sourceAgain, roots, (startedAt, now), supply, stages, stores, result, r);
    }

    // The staging directory is removed again when the migration fails.
    method CopyOrDiscard(tools: Tools, roots: Roots, startedAt: int, now: int, sourceAgain: Tree) returns (r: Outcome)
      requires Separate(roots.source, roots.target) && Separate(roots.staging, roots.source)
        && Separate(roots.staging, roots.target)
      requires TreeAt(files, roots.staging) == map[] && TreeAt(files, roots.target) == map[]
      modifies this
      ensures FreshOutcome(tools, old(files), files, r, roots)
      ensures r == Crashed ==> power == 0
      ensures IsExplained(
        tools, TreeAt(old(files), roots.source), sourceAgain, roots, (startedAt, now), old(power), files, r)
    {
      ghost var start, original, supply := files, TreeAt(files, roots.source), power;
      ghost var times := (startedAt, now);
      var progress, payload := CopyAndPublish(tools, roots, startedAt, now, sourceAgain);
      if progress == Alive {
        r := Done(payload, tools.payloadId(payload));
        DoneEnds(tools, start, files, sourceAgain, roots, times, supply, payload);
        return;
      }
      r := Crashed;
      if progress.Failed? {
        FailureNeedsNoPower(tools, original, sourceAgain, roots, times, supply, progress.failure);
        var alive := Discard(roots, start);
        if alive {
          r := Refused(progress.failure);
        }
      }
      UndoneEnds(tools, start, files, sourceAgain, roots, times, supply, payload, r);
    }

    // The staging directory of a failed migration is removed, which leaves the disk as it was at the start.
    method Discard(roots: Roots, ghost start: Files) returns (alive: bool)
      requires Separate(roots.staging, roots.target)
      requires SameElsewhere(files, start, roots.staging, roots.target) && TreeAt(files, roots.target) == map[]
      requires TreeAt(start, roots.staging) == map[] && TreeAt(start, roots.target) == map[]
      modifies this
      ensures SameElsewhere(files, start, roots.staging, roots.target) && TreeAt(files, roots.target) == map[]
      ensures alive ==> files == start
      ensures !alive ==> power == 0
    {
      ghost var failed := files;
      alive := RemoveTree(roots.staging);
      SeparateTreeKept(files, failed, roots.staging, roots.target);
      SameOutsideOne(files, failed, roots);
      SameElsewhereStill(files, failed, start, roots);
      if alive {
        SameAgain(files, start, roots);
      }
    }

    // `migrateLocalRuntimeTownDataV1ToV2`. The staging directory is new; `sourceAgain` is the source tree
    // as read again before publication.
    method Migrate(tools: Tools, roots: Roots, startedAt: int, now: int, sourceAgain: Tree) returns (r: Outcome)
      requires IsSibling(roots) && TreeAt(files, roots.staging) == map[]
      modifies this
      ensures RunOutcome(tools, old(files), files, r, roots)
      ensures IsAnswer(tools, old(files), files, sourceAgain, roots, (startedAt, now), old(power), r)
      ensures r == Crashed ==> power == 0
    {
      RefusalMeans(tools, files, roots);
      var refusal := Refusal(tools, files, roots);
      if refusal.Some? {
        return refusal.value;
      }
      SeparateStaging(files, roots);
      ghost var start, supply := files, power;
      r := CopyOrDiscard(tools, roots, startedAt, now, sourceAgain);
      RunSucceeds(tools, TreeAt(start, roots.source), sourceAgain, roots, (startedAt, now), supply, files, r);
      SourceKept(files, start, roots);
    }
  }

  // What is answered before anything is written: an error, or the migration that already exists.
  function Refusal(tools: Tools, files: Files, roots: Roots): Option<Outcome> {
    var original := TreeAt(files, roots.source);
    if !Separate(roots.source, roots.target) then Some(Refused(RootsNotSeparate))
    else if !IsLegacy(original) then Some(Refused(NotLegacyRoot))
    else if TreeAt(files, roots.target) != map[] then
      Some(ReadExisting(tools, TreeAt(files, roots.target), roots.source, roots.target, tools.hash(original)))
    else None
  }

  // No path lies at or below both roots.
  ghost predicate ShareNothing(a: Path, b: Path) {
    forall path :: !(IsUnder(path, a) && IsUnder(path, b))
  }

  lemma {:induction false} SeparateIff(a: Path, b: Path)
    ensures Separate(a, b) <==> ShareNothing(a, b)
  {
    if Separate(a, b) {
      forall path ensures !(IsUnder(path, a) && IsUnder(path, b)) {
        if IsUnder(path, a) {
          SeparateRootsShareNothing(path, a, b);
        }
      }
    } else {
      assert IsUnder(a, a) && IsUnder(b, b);
      assert (IsUnder(a, a) && IsUnder(a, b)) || (IsUnder(b, a) && IsUnder(b, b));
    }
  }

  // The tree holds a marker and the artifact it names, of a migration between these roots.
  predicate IsRegistered(tools: Tools, tree: Tree, roots: Roots, hash: string, payload: Payload, id: string) {
    && MARKER in tree && tree[MARKER] == Marker(id)
    && ArtifactFile(id) in tree && tree[ArtifactFile(id)] == Artifact(payload, id)
    && tools.payloadId(payload) == id && payload.source == roots.source && payload.target == roots.target
    && payload.sourceHashBefore == hash && payload.sourceHashAfter == hash
  }

  // What is answered for a target that exists.
  ghost predicate IsExistingAnswer(tools: Tools, tree: Tree, roots: Roots, hash: string, r: Outcome) {
    match r
    case Done(payload, id) =>
      IsRegistered(tools, tree, roots, hash, payload, id) && Verified(tools, tree, roots.target, payload.storeCount)
    case Refused(ForeignTarget) => forall id :: !(MARKER in tree && tree[MARKER] == Marker(id))
    case Refused(Provenance) =>
      && (exists id :: MARKER in tree && tree[MARKER] == Marker(id))
      && (forall payload, id :: !IsRegistered(tools, tree, roots, hash, payload, id))
    case Refused(NotVerified) =>
      exists payload, id :: IsRegistered(tools, tree, roots, hash, payload, id)
        && !Verified(tools, tree, roots.target, payload.storeCount)
    case _ => false
  }

  lemma {:induction false} ExistingIff(tools: Tools, tree: Tree, roots: Roots, hash: string, r: Outcome)
    ensures ReadExisting(tools, tree, roots.source, roots.target, hash) == r <==>
      IsExistingAnswer(tools, tree, roots, hash, r)
  {
    if MARKER in tree && tree[MARKER].Marker? {
      var id := tree[MARKER].artifactId;
      assert tree[MARKER] == Marker(id);
      forall payload, other | IsRegistered(tools, tree, roots, hash, payload, other)
        ensures other == id && tree[ArtifactFile(id)] == Artifact(payload, id)
      {
      }
      if ArtifactFile(id) in tree && tree[ArtifactFile(id)].Artifact? {
        var artifact := tree[ArtifactFile(id)];
        assert artifact == Artifact(artifact.payload, artifact.artifactId);
        assert artifact.artifactId == id && tools.payloadId(artifact.payload) == id
          && artifact.payload.source == roots.source && artifact.payload.target == roots.target
          && artifact.payload.sourceHashBefore == hash && artifact.payload.sourceHashAfter == hash
          <==> IsRegistered(tools, tree, roots, hash, artifact.payload, id);
      }
    }
  }

  // What a run may start with: roots apart from each other, and a legacy marker below the source.
  ghost predicate IsOldRuntime(files: Files, source: Path) {
    source + MARKER in files && files[source + MARKER] == LegacyMarker
  }

  ghost predicate IsFree(files: Files, root: Path) {
    forall path :: path in files ==> !IsUnder(path, root)
  }

  // The answer of a run, in terms of the disk, the tools and the power.
  ghost predicate IsAnswer(
    tools: Tools, before: Files, after: Files, sourceAgain: Tree, roots: Roots, times: (int, int), power: nat,
    r: Outcome)
  {
    var original := TreeAt(before, roots.source);
    if !ShareNothing(roots.source, roots.target) then r == Refused(RootsNotSeparate)
    else if !IsOldRuntime(before, roots.source) then r == Refused(NotLegacyRoot)
    else if !IsFree(before, roots.target) then
      IsExistingAnswer(tools, TreeAt(before, roots.target), roots, tools.hash(original), r)
    else
      && IsExplained(tools, original, sourceAgain, roots, times, power, after, r)
      && (EnoughPower(tools, original, sourceAgain, roots, times, power) ==> r.Done?)
  }

  lemma {:induction false} RefusalMeans(tools: Tools, files: Files, roots: Roots)
    ensures var refusal, original := Refusal(tools, files, roots), TreeAt(files, roots.source);
      if !ShareNothing(roots.source, roots.target) then refusal == Some(Refused(RootsNotSeparate))
      else if !IsOldRuntime(files, roots.source) then refusal == Some(Refused(NotLegacyRoot))
      else if !IsFree(files, roots.target) then
        refusal.Some?
        && IsExistingAnswer(tools, TreeAt(files, roots.target), roots, tools.hash(original), refusal.value)
      else refusal.None?
  {
    var original, tree := TreeAt(files, roots.source), TreeAt(files, roots.target);
    SeparateIff(roots.source, roots.target);
    TreeAtMeans(files, roots.source);
    FreeIff(files, roots.target);
    ExistingIff(tools, tree, roots, tools.hash(original),
      ReadExisting(tools, tree, roots.source, roots.target, tools.hash(original)));
  }

  lemma {:induction false} FreeIff(files: Files, root: Path)
    ensures IsFree(files, root) <==> TreeAt(files, root) == map[]
  {
    TreeAtMeans(files, root);
    if TreeAt(files, root) == map[] {
      NoFileUnder(files, root);
    } else {
      var rel :| rel in TreeAt(files, root);
      assert IsUnder(root + rel, root);
    }
  }

  // A whole run: the source stays as it is, and either it is answered at once or it copies.
  ghost predicate RunOutcome(tools: Tools, before: Files, after: Files, r: Outcome, roots: Roots) {
    && TreeAt(after, roots.source) == TreeAt(before, roots.source)
    && var refusal := Refusal(tools, before, roots);
       if refusal.Some? then after == before && r == refusal.value else FreshOutcome(tools, before, after, r, roots)
  }

  // A run that starts without a target, stopped anywhere: outside the staging and target roots nothing
  // changes, the target is absent or complete, and an error leaves everything as it was.
  ghost predicate FreshOutcome(tools: Tools, before: Files, after: Files, r: Outcome, roots: Roots) {
    && SameElsewhere(after, before, roots.staging, roots.target)
    && AbsentOrComplete(tools, TreeAt(before, roots.source), TreeAt(after, roots.target), roots)
    && (r.Refused? ==> after == before)
    && (r.Done? ==> IsMigrated(tools, TreeAt(before, roots.source), after, r, roots))
  }

  ghost predicate AbsentOrComplete(tools: Tools, original: Tree, target: Tree, roots: Roots) {
    target == map[] || exists payload :: IsPublished(tools, original, target, payload, roots)
  }

  // The target is published and verified, under the artifact that is returned.
  ghost predicate IsMigrated(tools: Tools, original: Tree, files: Files, r: Outcome, roots: Roots)
    requires r.Done?
  {
    && IsPublished(tools, original, TreeAt(files, roots.target), r.payload, roots)
    && r.artifactId == tools.payloadId(r.payload) && TreeAt(files, roots.staging) == map[]
    && Verified(tools, TreeAt(files, roots.target), roots.target, r.payload.storeCount)
  }

  // Any run, stopped or not, and then another one with a staging directory of its own: a finished
  // migration is returned as it is, and whatever is found at the target afterwards is complete.
  method MigrateTwice(
    runtime: Runtime, tools: Tools, roots: Roots, again: Roots, times: (int, int), later: (int, int),
    sourceAgain: Tree)
    returns (first: Outcome, second: Outcome)
    requires IsSibling(roots) && IsSibling(again) && again.source == roots.source && again.target == roots.target
    requires Separate(roots.staging, again.staging)
    requires TreeAt(runtime.files, roots.staging) == map[] && TreeAt(runtime.files, again.staging) == map[]
    requires TreeAt(runtime.files, roots.target) == map[]
    modifies runtime
    ensures TreeAt(runtime.files, roots.source) == TreeAt(old(runtime.files), roots.source)
    ensures first.Done? ==> second == first
    ensures var source, target := TreeAt(old(runtime.files), roots.source), TreeAt(runtime.files, roots.target);
      AbsentOrComplete(tools, source, target, roots) || AbsentOrComplete(tools, source, target, again)
  {
    ghost var start := runtime.files;
    first := runtime.Migrate(tools, roots, times.0, times.1, sourceAgain);
    ghost var middle := runtime.files;
    AfterFirstRun(tools, start, middle, first, roots, again);
    second := runtime.Migrate(tools, again, later.0, later.1, sourceAgain);
    AfterSecondRun(tools, middle, runtime.files, second, again);
  }

  lemma AfterFirstRun(tools: Tools, start: Files, middle: Files, first: Outcome, roots: Roots, again: Roots)
    requires IsSibling(again) && again.source == roots.source && again.target == roots.target
      && Separate(roots.staging, again.staging)
    requires TreeAt(start, again.staging) == map[] && TreeAt(start, roots.target) == map[]
    requires RunOutcome(tools, start, middle, first, roots)
    ensures TreeAt(middle, again.staging) == map[]
    ensures AbsentOrComplete(tools, TreeAt(start, roots.source), TreeAt(middle, roots.target), roots)
    ensures first.Done? ==> Refusal(tools, middle, again) == Some(first)
  {
    if Refusal(tools, start, roots).None? {
      SiblingsApart(again);
      StagingKept(middle, start, roots, again.staging);
      if first.Done? {
        DoneIsRecognised(tools, start, middle, first, roots, again);
      }
    }
  }

  lemma DoneIsRecognised(tools: Tools, start: Files, middle: Files, first: Outcome, roots: Roots, again: Roots)
    requires again.source == roots.source && again.target == roots.target
    requires first.Done? && Refusal(tools, start, roots).None?
      && TreeAt(middle, roots.source) == TreeAt(start, roots.source)
    requires IsMigrated(tools, TreeAt(start, roots.source), middle, first, roots)
    ensures Refusal(tools, middle, again) == Some(first)
  {
    var original, target := TreeAt(start, roots.source), TreeAt(middle, roots.target);
    var stages :| Published(tools, original, stages, target, first.payload, roots);
    PublishedIsRecognised(tools, original, stages, target, first.payload, roots);
    MarkerAndArtifactStay(tools, original, stages, target, first.payload, roots);
    assert target != map[];
  }

  lemma AfterSecondRun(tools: Tools, middle: Files, end: Files, second: Outcome, again: Roots)
    requires RunOutcome(tools, middle, end, second, again)
    ensures TreeAt(end, again.target) == TreeAt(middle, again.target)
         || AbsentOrComplete(tools, TreeAt(middle, again.source), TreeAt(end, again.target), again)
  {
  }

  lemma SiblingsApart(roots: Roots)
    requires IsSibling(roots)
    ensures Separate(roots.staging, roots.target)
  {
  }

  lemma StagingKept(a: Files, b: Files, roots: Roots, other: Path)
    requires SameElsewhere(a, b, roots.staging, roots.target) && Separate(roots.staging, other)
      && Separate(other, roots.target)
    ensures TreeAt(a, other) == TreeAt(b, other)
  {
    SourceKept(a, b, roots.(source := other));
  }

  ghost predicate IsPublished(tools: Tools, original: Tree, result: Tree, payload: Payload, roots: Roots) {
    exists stages: Stages :: Published(tools, original, stages, result, payload, roots)
  }

  lemma SameOutsideOne(a: Files, b: Files, roots: Roots)
    requires SameOutside(a, b, roots.staging)
    ensures SameElsewhere(a, b, roots.staging, roots.target)
  {
  }

  lemma SameElsewhereStill(a: Files, b: Files, c: Files, roots: Roots)
    requires SameElsewhere(a, b, roots.staging, roots.target) && SameElsewhere(b, c, roots.staging, roots.target)
    ensures SameElsewhere(a, c, roots.staging, roots.target)
  {
  }

  lemma SourceKept(a: Files, b: Files, roots: Roots)
    requires SameElsewhere(a, b, roots.staging, roots.target)
    requires Separate(roots.source, roots.staging) && Separate(roots.source, roots.target)
    ensures TreeAt(a, roots.source) == TreeAt(b, roots.source)
  {
    TreeAtMeans(a, roots.source);
    TreeAtMeans(b, roots.source);
    forall rel: Path
      ensures rel in TreeAt(a, roots.source) <==> rel in TreeAt(b, roots.source)
      ensures rel in TreeAt(a, roots.source) ==> TreeAt(a, roots.source)[rel] == TreeAt(b, roots.source)[rel]
    {
      SeparateRootsShareNothing(roots.source + rel, roots.source, roots.staging);
      SeparateRootsShareNothing(roots.source + rel, roots.source, roots.target);
    }
  }

  // With both roots empty and nothing changed elsewhere, the disk is as before.
  lemma SameAgain(a: Files, b: Files, roots: Roots)
    requires SameElsewhere(a, b, roots.staging, roots.target)
    requires TreeAt(a, roots.staging) == map[] && TreeAt(a, roots.target) == map[]
    requires TreeAt(b, roots.staging) == map[] && TreeAt(b, roots.target) == map[]
    ensures a == b
  {
    NoFileUnder(a, roots.staging);
    NoFileUnder(a, roots.target);
    NoFileUnder(b, roots.staging);
    NoFileUnder(b, roots.target);
  }

  lemma NoFileUnder(files: Files, root: Path)
    requires TreeAt(files, root) == map[]
    ensures forall p :: p in files ==> !IsUnder(p, root)
  {
    TreeAtMeans(files, root);
    forall p | p in files ensures !IsUnder(p, root) {
      Deeper(p, root, []);
      assert p + [] == p;
    }
  }

  // Nothing differs outside two roots.
  ghost predicate SameElsewhere(a: Files, b: Files, one: Path, other: Path) {
    forall p :: !IsUnder(p, one) && !IsUnder(p, other) ==> (p in a <==> p in b) && (p in a && p in b ==> a[p] == b[p])
  }

  // What has been copied so far.
  ghost predicate IsPart(copy: Tree, tree: Tree, pending: set<Path>) {
    copy.Keys == tree.Keys - pending && forall rel :: rel in copy ==> rel in tree && copy[rel] == tree[rel]
  }

  lemma PartDone(copy: Tree, tree: Tree)
    requires IsPart(copy, tree, {})
    ensures copy == tree
  {
  }

  lemma PartGrows(copy: Tree, tree: Tree, pending: set<Path>, rel: Path)
    requires IsPart(copy, tree, pending) && rel in pending && pending <= tree.Keys
    ensures IsPart(copy[rel := tree[rel]], tree, pending - {rel})
  {
  }

  lemma SameOutsideStill(a: Files, b: Files, c: Files, root: Path)
    requires SameOutside(a, b, root) && SameOutside(b, c, root)
    ensures SameOutside(a, c, root)
  {
  }

  // What has been relocated so far; files without references are done from the start.
  ghost predicate IsPartlyRelocated(
    urls: Urls, now: Tree, tree: Tree, pending: set<Path>, root: Path, from: Path, to: Path) {
    && now.Keys == tree.Keys
    && forall rel :: rel in tree ==>
         if rel in pending then now[rel] == tree[rel]
         else RelocateContent(urls, root + rel, tree[rel], from, to) == Result<Content, Failure>.Ok(now[rel])
  }

  lemma PartlyRelocatedGrows(
    urls: Urls, now: Tree, tree: Tree, pending: set<Path>, root: Path, from: Path, to: Path, rel: Path)
    requires IsPartlyRelocated(urls, now, tree, pending, root, from, to) && rel in pending && pending <= tree.Keys
    ensures var moved := RelocateContent(urls, root + rel, tree[rel], from, to);
      moved.Ok? ==> IsPartlyRelocated(urls, now[rel := moved.value], tree, pending - {rel}, root, from, to)
  {
  }

  lemma DropAt(files: Files, root: Path, rel: Path)
    ensures TreeAt(files - {root + rel}, root) == TreeAt(files, root) - {rel}
    ensures SameOutside(files - {root + rel}, files, root)
  {
    TreeAtMeans(files, root);
    TreeAtMeans(files - {root + rel}, root);
    forall other: Path ensures root + other == root + rel <==> other == rel {
      SameBelow(root, other, rel);
    }
  }
}
