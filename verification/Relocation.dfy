// File references inside a runtime tree, and how a migration moves them from one root to another.
// Paths are lists of segments.
module Relocation {
  import opened Wrappers

  type Path = seq<string>

  // Equal to the root or below it.
  predicate IsUnder(path: Path, root: Path) {
    root <= path
  }

  predicate Separate(a: Path, b: Path) {
    !IsUnder(a, b) && !IsUnder(b, a)
  }

  lemma PrefixesNest(path: Path, a: Path, b: Path)
    requires IsUnder(path, a) && IsUnder(path, b)
    ensures IsUnder(a, b) || IsUnder(b, a)
  {
    assert path[..|a|] == a && path[..|b|] == b;
    if |a| <= |b| {
      assert b[..|a|] == path[..|a|];
    } else {
      assert a[..|b|] == path[..|b|];
    }
  }

  lemma SeparateRootsShareNothing(path: Path, a: Path, b: Path)
    requires Separate(a, b) && IsUnder(path, a)
    ensures !IsUnder(path, b)
  {
    if IsUnder(path, b) {
      PrefixesNest(path, a, b);
    }
  }

  datatype Failure =
    | RootsNotSeparate | NotLegacyRoot | CopyDiffers | NotFileUri | EscapesRoot | Malformed | NotHydrated
    | StoreUpgradeFailed | SourceChanged | ArtifactExists | NotVerified | ForeignTarget | Provenance

  // `pathToFileURL` and `fileURLToPath`.
  datatype Urls = Urls(toUrl: Path -> string, fromUrl: string -> Option<Path>)

  ghost predicate Lawful(urls: Urls) {
    forall p :: urls.fromUrl(urls.toUrl(p)) == Some(p)
  }

  // `relocateFileUri`: the referenced path must lie strictly below the root.
  function RelocateUri(urls: Urls, uri: string, from: Path, to: Path): Result<string, Failure> {
    var path := urls.fromUrl(uri);
    if path.None? then Error(NotFileUri)
    else if !(from < path.value) then Error(EscapesRoot)
    else Ok(urls.toUrl(to + path.value[|from|..]))
  }

  // Going through an intermediate root is going directly, errors included.
  lemma RelocateTwice(urls: Urls, uri: string, from: Path, via: Path, to: Path)
    requires Lawful(urls)
    ensures var first := RelocateUri(urls, uri, from, via);
      if first.Ok? then RelocateUri(urls, first.value, via, to) == RelocateUri(urls, uri, from, to)
      else RelocateUri(urls, uri, from, to) == first
  {
    var first := RelocateUri(urls, uri, from, via);
    if first.Ok? {
      var path := urls.fromUrl(uri).value;
      var moved := via + path[|from|..];
      assert urls.fromUrl(first.value) == Some(moved);
      assert moved[|via|..] == path[|from|..];
      assert via < moved;
    }
  }

  // Relocating there and back gives the same path, so no two references are confused.
  lemma RelocateBack(urls: Urls, uri: string, from: Path, to: Path)
    requires Lawful(urls) && RelocateUri(urls, uri, from, to).Ok?
    ensures var back := RelocateUri(urls, RelocateUri(urls, uri, from, to).value, to, from);
      back.Ok? && urls.fromUrl(back.value) == urls.fromUrl(uri)
  {
    var path := urls.fromUrl(uri).value;
    RelocateTwice(urls, uri, from, to, from);
    assert from + path[|from|..] == path;
  }

  // Accepted exactly when the reference lies strictly below the root, and then the result lies below the
  // new root at the same place.
  lemma RelocatedIsCounterpart(urls: Urls, uri: string, from: Path, to: Path)
    requires Lawful(urls)
    ensures RelocateUri(urls, uri, from, to).Ok? <==>
      exists rel: Path :: rel != [] && urls.fromUrl(uri) == Some(from + rel)
    ensures forall rel: Path :: rel != [] && urls.fromUrl(uri) == Some(from + rel) ==>
      RelocateUri(urls, uri, from, to).Ok? && urls.fromUrl(RelocateUri(urls, uri, from, to).value) == Some(to + rel)
  {
    var path := urls.fromUrl(uri);
    if path.Some? && from < path.value {
      assert path.value == from + path.value[|from|..];
    }
    forall rel: Path | rel != [] && path == Some(from + rel)
      ensures RelocateUri(urls, uri, from, to).Ok?
        && urls.fromUrl(RelocateUri(urls, uri, from, to).value) == Some(to + rel)
    {
      assert (from + rel)[|from|..] == rel;
    }
  }

  // ---------- trees ----------

  // The documents of a runtime tree, as far as a migration reads them.
  datatype Content =
    | Checkpoints(uris: seq<string>)
    | Snapshot(uri: string)
    | LegacyMarker
    | Marker(artifactId: string)
    | Artifact(payload: Payload, artifactId: string)
    | Data(bytes: string)

  datatype Payload = Payload(
    startedAt: int, completedAt: int, source: Path, target: Path,
    sourceHashBefore: string, sourceHashAfter: string, storeCount: nat)

  // Files by path below the root.
  type Tree = map<Path, Content>

  const CHECKPOINT_NAME := "projection-checkpoints.jsonl"

  predicate IsCheckpointFile(path: Path) {
    path != [] && path[|path| - 1] == CHECKPOINT_NAME
  }

  predicate EndsWithJson(name: string) {
    |name| >= 5 && name[|name| - 5..] == ".json"
  }

  // The absolute path holds `/snapshots/projection-snapshots/`.
  predicate IsSnapshotFile(path: Path) {
    && path != [] && EndsWithJson(path[|path| - 1])
    && exists i :: 0 <= i < |path| - 2 && path[i] == "snapshots" && path[i + 1] == "projection-snapshots"
  }

  predicate IsReferenceFile(path: Path) {
    IsCheckpointFile(path) || IsSnapshotFile(path)
  }

  function RelocateAll(urls: Urls, uris: seq<string>, from: Path, to: Path): Result<seq<string>, Failure> {
    if uris == [] then Ok([])
    else
      var first := RelocateUri(urls, uris[0], from, to);
      if first.Error? then Error(first.error)
      else
        var rest := RelocateAll(urls, uris[1..], from, to);
        if rest.Error? then rest else Ok([first.value] + rest.value)
  }

  // The rewritten document of a reference file; other files are not touched.
  function RelocateContent(urls: Urls, path: Path, content: Content, from: Path, to: Path): Result<Content, Failure> {
    if IsCheckpointFile(path) then
      if !content.Checkpoints? then Error(Malformed)
      else
        var r := RelocateAll(urls, content.uris, from, to);
        if r.Error? then Error(r.error) else Ok(Checkpoints(r.value))
    else if IsSnapshotFile(path) then
      if !content.Snapshot? then Error(Malformed)
      else
        var r := RelocateUri(urls, content.uri, from, to);
        if r.Error? then Error(r.error) else Ok(Snapshot(r.value))
    else Ok(content)
  }

  lemma {:induction false} RelocateAllTwice(urls: Urls, uris: seq<string>, from: Path, via: Path, to: Path)
    requires Lawful(urls) && RelocateAll(urls, uris, from, via).Ok?
    ensures RelocateAll(urls, RelocateAll(urls, uris, from, via).value, via, to) == RelocateAll(urls, uris, from, to)
    ensures RelocateAll(urls, uris, from, to).Ok?
  {
    if uris != [] {
      RelocateTwice(urls, uris[0], from, via, to);
      RelocateAllTwice(urls, uris[1..], from, via, to);
      var first, rest := RelocateUri(urls, uris[0], from, via).value, RelocateAll(urls, uris[1..], from, via).value;
      assert ([first] + rest)[1..] == rest;
    }
  }

  lemma RelocateContentTwice(urls: Urls, path: Path, content: Content, from: Path, via: Path, to: Path)
    requires Lawful(urls) && RelocateContent(urls, path, content, from, via).Ok?
    ensures RelocateContent(urls, path, RelocateContent(urls, path, content, from, via).value, via, to)
         == RelocateContent(urls, path, content, from, to)
    ensures RelocateContent(urls, path, content, from, to).Ok?
  {
    if IsCheckpointFile(path) {
      RelocateAllTwice(urls, content.uris, from, via, to);
    } else if IsSnapshotFile(path) {
      RelocateTwice(urls, content.uri, from, via, to);
    }
  }

  // Whether every document of a tree standing at `root` can be relocated, and the tree that results.
  ghost predicate Relocatable(urls: Urls, tree: Tree, root: Path, from: Path, to: Path) {
    forall rel :: rel in tree ==> RelocateContent(urls, root + rel, tree[rel], from, to).Ok?
  }

  ghost predicate IsRelocated(urls: Urls, tree: Tree, result: Tree, root: Path, from: Path, to: Path) {
    && result.Keys == tree.Keys
    && forall rel :: rel in tree ==>
      RelocateContent(urls, root + rel, tree[rel], from, to) == Result<Content, Failure>.Ok(result[rel])
  }

  // Two passes over a tree that stays at its staging root are one direct relocation of every reference.
  lemma RelocatedTwice(urls: Urls, tree: Tree, moved: Tree, result: Tree, root: Path, from: Path, via: Path, to: Path)
    requires Lawful(urls) && IsRelocated(urls, tree, moved, root, from, via)
    ensures IsRelocated(urls, moved, result, root, via, to) <==> IsRelocated(urls, tree, result, root, from, to)
    ensures Relocatable(urls, tree, root, from, to)
  {
    forall rel | rel in tree
      ensures RelocateContent(urls, root + rel, tree[rel], from, to).Ok?
      ensures RelocateContent(urls, root + rel, moved[rel], via, to) ==
        RelocateContent(urls, root + rel, tree[rel], from, to)
    {
      RelocateContentTwice(urls, root + rel, tree[rel], from, via, to);
    }
  }
}
