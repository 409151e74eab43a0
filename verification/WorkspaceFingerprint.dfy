// The Git workspace fingerprint: NUL-separated paths are split and sorted, and every path with its
// kind, executable bit and content digest goes into one hashed stream of length-prefixed fields.
module WorkspaceFingerprint {
  import opened Sequences
  import opened Wrappers
  import opened Ordering
  import opened Bytes

  // ---------- the path list ----------

  datatype Chunks = Chunks(done: seq<ByteString>, open: ByteString)

  // The non-empty pieces ended by a NUL, and the unended rest.
  function ChunksOf(value: ByteString): Chunks {
    if value == [] then Chunks([], [])
    else
      Extend(ChunksOf(value[..|value| - 1]), value[|value| - 1])
  }

  function Extend(before: Chunks, b: Byte): Chunks {
    if b != 0 then before.(open := before.open + [b])
    else if before.open == [] then before
    else Chunks(before.done + [before.open], [])
  }

  lemma ChunksOfNext(value: ByteString, index: nat)
    requires index < |value|
    ensures ChunksOf(value[..index + 1]) == Extend(ChunksOf(value[..index]), value[index])
  {
    assert value[..index + 1][..index] == value[..index];
  }

  datatype FingerprintError = NotNulTerminated | NotUtf8(path: ByteString) | Unsupported(path: ByteString)

  function Split(value: ByteString): Result<seq<ByteString>, FingerprintError> {
    var chunks := ChunksOf(value);
    if chunks.open == [] then Ok(chunks.done) else Error(NotNulTerminated)
  }

  // `splitNullTerminated`
  method SplitNullTerminated(value: ByteString) returns (r: Result<seq<ByteString>, FingerprintError>)
    ensures r == Split(value)
  {
    var paths: seq<ByteString> := [];
    var start := 0;
    for index := 0 to |value|
      invariant 0 <= start <= index
      invariant ChunksOf(value[..index]) == Chunks(paths, value[start..index])
    {
      ChunksOfNext(value, index);
      assert value[start..index + 1] == value[start..index] + [value[index]];
      if value[index] != 0 {
        continue;
      }
      if index > start {
        paths := paths + [value[start..index]];
      }
      start := index + 1;
    }
    assert value[..|value|] == value;
    if start != |value| {
      return Error(NotNulTerminated);
    }
    return Ok(paths);
  }

  predicate IsPath(path: ByteString) {
    path != [] && 0 !in path
  }

  function Join(paths: seq<ByteString>): ByteString {
    if paths == [] then [] else Join(paths[..|paths| - 1]) + paths[|paths| - 1] + [0]
  }

  lemma ChunksOfSnoc(value: ByteString, b: Byte)
    ensures ChunksOf(value + [b]) == Extend(ChunksOf(value), b)
  {
    assert (value + [b])[..|value|] == value;
  }

  lemma {:induction false} ChunksOfPiece(value: ByteString, piece: ByteString)
    requires 0 !in piece
    ensures ChunksOf(value + piece) == ChunksOf(value).(open := ChunksOf(value).open + piece)
  {
    if piece == [] {
      assert value + piece == value;
      assert ChunksOf(value).open + piece == ChunksOf(value).open;
    } else {
      var init, last := piece[..|piece| - 1], piece[|piece| - 1];
      assert piece == init + [last];
      ChunksOfPiece(value, init);
      Regroup(value, init, [last]);
      ChunksOfSnoc(value + init, last);
      Regroup(ChunksOf(value).open, init, [last]);
    }
  }

  // Splitting undoes joining.
  lemma ChunksOfPath(value: ByteString, done: seq<ByteString>, path: ByteString)
    requires ChunksOf(value) == Chunks(done, []) && IsPath(path)
    ensures ChunksOf(value + path + [0]) == Chunks(done + [path], [])
  {
    ChunksOfPiece(value, path);
    assert [] + path == path;
    ChunksOfSnoc(value + path, 0);
  }

  lemma {:induction false} SplitUndoesJoin(paths: seq<ByteString>)
    requires forall i :: 0 <= i < |paths| ==> IsPath(paths[i])
    ensures ChunksOf(Join(paths)) == Chunks(paths, []) && Split(Join(paths)) == Ok(paths)
  {
    if paths != [] {
      var init, last := paths[..|paths| - 1], paths[|paths| - 1];
      assert IsPath(last);
      SplitUndoesJoin(init);
      ChunksOfPath(Join(init), init, last);
      assert init + [last] == paths;
    }
  }

  // It accepts exactly the NUL-terminated (or empty) listings, and yields only real paths.
  lemma {:induction false} SplitYieldsPaths(value: ByteString)
    ensures Split(value).Ok? <==> value == [] || value[|value| - 1] == 0
    ensures 0 !in ChunksOf(value).open
    ensures forall p :: p in ChunksOf(value).done ==> IsPath(p)
  {
    if value != [] {
      SplitYieldsPaths(value[..|value| - 1]);
    }
  }

  // ---------- entries ----------

  // What `lstat` and the reads find at a listed path.
  datatype FileState =
    | Missing
    | Regular(executable: bool, content: ByteString)
    | Symlink(target: ByteString)
    | Other

  // SHA-256 as an opaque function, the UTF-8 test, and the state of the worktree.
  datatype Env = Env(
    hash: ByteString -> ByteString,
    isUtf8: ByteString -> bool,
    stateOf: ByteString -> FileState)

  datatype Kind = Deleted | File | Link

  datatype Entry = Entry(path: ByteString, kind: Kind, executable: bool, digest: ByteString)

  function Ascii(s: string): (r: ByteString)
    requires forall i :: 0 <= i < |s| ==> s[i] as int < 128
    ensures |r| == |s| && forall i :: 0 <= i < |s| ==> r[i] == s[i] as int
  {
    seq(|s|, i requires 0 <= i < |s| => s[i] as int)
  }

  const DELETED := "deleted"
  const FILE := "file"
  const SYMLINK := "symlink"
  const EXECUTABLE := "executable"
  const NON_EXECUTABLE := "non-executable"

  function KindBytes(kind: Kind): ByteString {
    match kind
    case Deleted => Ascii(DELETED)
    case File => Ascii(FILE)
    case Link => Ascii(SYMLINK)
  }

  function ExecutableBytes(executable: bool): ByteString {
    if executable then Ascii(EXECUTABLE) else Ascii(NON_EXECUTABLE)
  }

  function EntryOf(env: Env, path: ByteString): Result<Entry, FingerprintError> {
    if !env.isUtf8(path) then Error(NotUtf8(path))
    else match env.stateOf(path)
      case Missing => Ok(Entry(path, Deleted, false, env.hash(Ascii(DELETED))))
      case Regular(executable, content) => Ok(Entry(path, File, executable, env.hash(content)))
      case Symlink(target) => Ok(Entry(path, Link, false, env.hash(target)))
      case Other => Error(Unsupported(path))
  }

  function EntriesOf(env: Env, paths: seq<ByteString>): Result<seq<Entry>, FingerprintError> {
    if paths == [] then Ok([])
    else
      var before :- EntriesOf(env, paths[..|paths| - 1]);
      var entry :- EntryOf(env, paths[|paths| - 1]);
      Ok(before + [entry])
  }

  const LENGTH_BYTES := 8
  const LENGTH_LIMIT := 0x1_0000_0000_0000_0000

  lemma LimitIsWidth()
    ensures Power256(LENGTH_BYTES) == LENGTH_LIMIT
  {
    assert Power256(4) == 0x1_0000_0000;
    assert Power256(8) == 256 * (256 * (256 * (256 * Power256(4))));
  }

  // Lengths are written as unsigned 64-bit numbers.
  predicate Fits(entry: Entry) {
    |entry.path| < LENGTH_LIMIT && |entry.digest| < LENGTH_LIMIT
  }

  function Field(v: ByteString): ByteString
    requires |v| < LENGTH_LIMIT
  {
    LimitIsWidth();
    LengthPrefixed(v, LENGTH_BYTES)
  }

  lemma FieldUnique(a: ByteString, b: ByteString, x: ByteString, y: ByteString)
    requires |a| < LENGTH_LIMIT && |b| < LENGTH_LIMIT && Field(a) + x == Field(b) + y
    ensures a == b && x == y
  {
    LimitIsWidth();
    LengthPrefixedUnique(a, b, x, y, LENGTH_BYTES);
  }

  // The four fields written for one entry.
  function EntryBytes(entry: Entry): ByteString
    requires Fits(entry)
  {
    Field(entry.path) + (Field(KindBytes(entry.kind)) +
      (Field(ExecutableBytes(entry.executable)) + Field(entry.digest)))
  }

  predicate AllFit(entries: seq<Entry>) {
    forall i :: 0 <= i < |entries| ==> Fits(entries[i])
  }

  function Stream(entries: seq<Entry>): ByteString
    requires AllFit(entries)
  {
    if entries == [] then [] else EntryBytes(entries[0]) + Stream(entries[1..])
  }

  lemma KindBytesUnique(a: Kind, b: Kind)
    requires KindBytes(a) == KindBytes(b)
    ensures a == b
  {
    assert KindBytes(Deleted)[0] == 'd' as int && KindBytes(File)[0] == 'f' as int && KindBytes(Link)[0] == 's' as int;
  }

  lemma ExecutableBytesUnique(a: bool, b: bool)
    requires ExecutableBytes(a) == ExecutableBytes(b)
    ensures a == b
  {
    assert ExecutableBytes(true)[0] == 'e' as int && ExecutableBytes(false)[0] == 'n' as int;
  }

  lemma EntryUnique(a: Entry, b: Entry, x: ByteString, y: ByteString)
    requires Fits(a) && Fits(b) && EntryBytes(a) + x == EntryBytes(b) + y
    ensures a == b && x == y
  {
    var a3, b3 := Field(a.digest) + x, Field(b.digest) + y;
    var a2, b2 := Field(ExecutableBytes(a.executable)) + a3, Field(ExecutableBytes(b.executable)) + b3;
    var a1, b1 := Field(KindBytes(a.kind)) + a2, Field(KindBytes(b.kind)) + b2;
    EntrySplit(a, x);
    EntrySplit(b, y);
    FieldUnique(a.path, b.path, a1, b1);
    FieldUnique(KindBytes(a.kind), KindBytes(b.kind), a2, b2);
    FieldUnique(ExecutableBytes(a.executable), ExecutableBytes(b.executable), a3, b3);
    FieldUnique(a.digest, b.digest, x, y);
    KindBytesUnique(a.kind, b.kind);
    ExecutableBytesUnique(a.executable, b.executable);
  }

  lemma EntrySplit(a: Entry, x: ByteString)
    requires Fits(a)
    ensures |KindBytes(a.kind)| < LENGTH_LIMIT && |ExecutableBytes(a.executable)| < LENGTH_LIMIT
    ensures EntryBytes(a) + x ==
      Field(a.path) + (Field(KindBytes(a.kind)) + (Field(ExecutableBytes(a.executable)) + (Field(a.digest) + x)))
  {
    var p, k, e, d := Field(a.path), Field(KindBytes(a.kind)), Field(ExecutableBytes(a.executable)), Field(a.digest);
    Regroup(p, k + (e + d), x);
    Regroup(k, e + d, x);
    Regroup(e, d, x);
  }

  lemma StreamHead(entries: seq<Entry>)
    requires AllFit(entries) && entries != []
    ensures |Stream(entries)| > 0
  {
    assert Fits(entries[0]);
    assert |Field(entries[0].path)| >= LENGTH_BYTES;
    assert |EntryBytes(entries[0])| >= LENGTH_BYTES;
  }

  // Streams that start with equal bytes start with the same entry.
  lemma FirstEntryUnique(a: seq<Entry>, b: seq<Entry>)
    requires AllFit(a) && AllFit(b) && Stream(a) == Stream(b) && a != [] && b != []
    ensures a[0] == b[0] && Stream(a[1..]) == Stream(b[1..])
  {
    assert Fits(a[0]) && Fits(b[0]);
    EntryUnique(a[0], b[0], Stream(a[1..]), Stream(b[1..]));
  }

  lemma ConsEqual(a: seq<Entry>, b: seq<Entry>)
    requires a != [] && b != [] && a[0] == b[0] && a[1..] == b[1..]
    ensures a == b
  {
    assert a == [a[0]] + a[1..] && b == [b[0]] + b[1..];
  }

  // The stream decodes uniquely into its entries.
  lemma {:induction false} StreamUnique(a: seq<Entry>, b: seq<Entry>)
    requires AllFit(a) && AllFit(b) && Stream(a) == Stream(b)
    ensures a == b
  {
    if a != [] {
      StreamHead(a);
    }
    if b != [] {
      StreamHead(b);
    }
    if a != [] && b != [] {
      FirstEntryUnique(a, b);
      StreamUnique(a[1..], b[1..]);
      ConsEqual(a, b);
    }
  }

  lemma {:induction false} StreamAppend(entries: seq<Entry>, entry: Entry)
    requires AllFit(entries) && Fits(entry)
    ensures AllFit(entries + [entry]) && Stream(entries + [entry]) == Stream(entries) + EntryBytes(entry)
  {
    var more := entries + [entry];
    assert forall i :: 0 <= i < |more| ==> more[i] == if i < |entries| then entries[i] else entry;
    if entries == [] {
      assert more[1..] == [];
    } else {
      assert more[1..] == entries[1..] + [entry];
      StreamAppend(entries[1..], entry);
      Regroup(EntryBytes(entries[0]), Stream(entries[1..]), EntryBytes(entry));
    }
  }

  // ---------- the fingerprint ----------

  datatype Fingerprint = Fingerprint(sha256: ByteString, pathCount: nat)

  function SortPaths(paths: seq<ByteString>): (sorted: seq<ByteString>)
    ensures multiset(sorted) == multiset(paths)
  {
    SortKeysAscends(paths);
    SortedAreBytes(paths);
    SortKeys(paths)
  }

  predicate IsBytes(s: seq<int>) {
    forall j :: 0 <= j < |s| ==> 0 <= s[j] < 256
  }

  lemma SortedAreBytes(paths: seq<ByteString>)
    ensures forall i :: 0 <= i < |SortKeys(paths)| ==> IsBytes(SortKeys(paths)[i])
  {
    SortKeysAscends(paths);
    var sorted := SortKeys(paths);
    forall i | 0 <= i < |sorted| ensures IsBytes(sorted[i]) {
      assert sorted[i] in sorted;
      var j :| 0 <= j < |paths| && paths[j] == sorted[i];
    }
  }

  lemma {:induction false} PiecesAreNotLonger(value: ByteString)
    ensures |ChunksOf(value).open| <= |value|
    ensures forall p :: p in ChunksOf(value).done ==> |p| <= |value|
  {
    if value != [] {
      PiecesAreNotLonger(value[..|value| - 1]);
    }
  }

  // SHA-256 digests have 32 bytes.
  ghost predicate IsDigest(hash: ByteString -> ByteString) {
    forall s :: |hash(s)| == 32
  }

  lemma EntryFits(env: Env, path: ByteString)
    requires IsDigest(env.hash) && |path| < LENGTH_LIMIT && EntryOf(env, path).Ok?
    ensures Fits(EntryOf(env, path).value)
  {
  }

  lemma {:induction false} EntriesFit(env: Env, paths: seq<ByteString>)
    requires IsDigest(env.hash) && (forall p :: p in paths ==> |p| < LENGTH_LIMIT)
    requires EntriesOf(env, paths).Ok?
    ensures AllFit(EntriesOf(env, paths).value) && |EntriesOf(env, paths).value| == |paths|
  {
    if paths != [] {
      EntriesFit(env, paths[..|paths| - 1]);
      EntryFits(env, paths[|paths| - 1]);
    }
  }

  lemma {:induction false} EntriesPrefix(env: Env, paths: seq<ByteString>, n: nat)
    requires n <= |paths| && EntriesOf(env, paths[..n]).Error?
    ensures EntriesOf(env, paths) == EntriesOf(env, paths[..n])
  {
    if n == |paths| {
      assert paths[..n] == paths;
    } else {
      assert paths[..|paths| - 1][..n] == paths[..n];
      EntriesPrefix(env, paths[..|paths| - 1], n);
    }
  }

  lemma SortedPathsFit(listed: ByteString)
    requires |listed| < LENGTH_LIMIT && Split(listed).Ok?
    ensures forall p :: p in SortPaths(Split(listed).value) ==> |p| < LENGTH_LIMIT
  {
    PiecesAreNotLonger(listed);
    var paths := Split(listed).value;
    assert forall p :: p in SortPaths(paths) <==> p in multiset(SortPaths(paths));
  }

  // The bytes that are hashed: the policy line, then the stream of all entries in path order.
  ghost function Hashed(env: Env, listed: ByteString): Result<ByteString, FingerprintError>
    requires IsDigest(env.hash) && |listed| < LENGTH_LIMIT
  {
    var paths :- Split(listed);
    var sorted := SortPaths(paths);
    var entries :- EntriesOf(env, sorted);
    SortedPathsFit(listed);
    EntriesFit(env, sorted);
    Ok(PolicyLine() + Stream(entries))
  }

  const POLICY_LINE := "git-workspace-fingerprint-v1\0"

  function PolicyLine(): ByteString {
    Ascii(POLICY_LINE)
  }

  method UpdateLengthPrefixed(aggregate: ByteString, value: ByteString) returns (r: ByteString)
    requires |value| < LENGTH_LIMIT
    ensures r == aggregate + Field(value)
  {
    LimitIsWidth();
    var length := BigEndian(|value|, LENGTH_BYTES);
    r := aggregate + length;
    r := r + value;
  }

  lemma AssocFields(a: ByteString, p: ByteString, k: ByteString, e: ByteString, d: ByteString)
    ensures a + p + k + e + d == a + (p + (k + (e + d)))
  {
    Regroup(a + p + k, e, d);
    Regroup(a + p, k, e + d);
    Regroup(a, p, k + (e + d));
  }

  method UpdateEntry(aggregate: ByteString, entry: Entry) returns (r: ByteString)
    requires Fits(entry)
    ensures r == aggregate + EntryBytes(entry)
  {
    r := UpdateLengthPrefixed(aggregate, entry.path);
    r := UpdateLengthPrefixed(r, KindBytes(entry.kind));
    r := UpdateLengthPrefixed(r, ExecutableBytes(entry.executable));
    r := UpdateLengthPrefixed(r, entry.digest);
    AssocFields(aggregate, Field(entry.path), Field(KindBytes(entry.kind)),
      Field(ExecutableBytes(entry.executable)), Field(entry.digest));
  }

  // The loop over the sorted paths.
  method HashEntries(
    env: Env, paths: seq<ByteString>) returns (r: Result<ByteString, FingerprintError>, ghost entries: seq<Entry>)
    requires IsDigest(env.hash) && forall p :: p in paths ==> |p| < LENGTH_LIMIT
    ensures r.Ok? ==>
      EntriesOf(env, paths) == Ok(entries) && AllFit(entries) && r.value == PolicyLine() + Stream(entries)
    ensures r.Error? ==> EntriesOf(env, paths) == Error(r.error)
  {
    var aggregate := PolicyLine();
    entries := [];
    for index := 0 to |paths|
      invariant EntriesOf(env, paths[..index]) == Ok(entries) && AllFit(entries)
      invariant aggregate == PolicyLine() + Stream(entries)
    {
      assert paths[..index + 1][..index] == paths[..index];
      var entry := EntryOf(env, paths[index]);
      if entry.Error? {
        EntriesPrefix(env, paths, index + 1);
        return Error(entry.error), entries;
      }
      EntryFits(env, paths[index]);
      StreamAppend(entries, entry.value);
      Regroup(PolicyLine(), Stream(entries), EntryBytes(entry.value));
      aggregate := UpdateEntry(aggregate, entry.value);
      entries := entries + [entry.value];
    }
    assert paths[..|paths|] == paths;
    return Ok(aggregate), entries;
  }

  // `createGitWorkspaceFingerprint`, given the output of `git ls-files`.
  method CreateFingerprint(env: Env, listed: ByteString) returns (r: Result<Fingerprint, FingerprintError>)
    requires IsDigest(env.hash) && |listed| < LENGTH_LIMIT
    ensures Hashed(env, listed).Ok? ==>
      r == Ok(Fingerprint(env.hash(Hashed(env, listed).value), |Split(listed).value|))
    ensures Hashed(env, listed).Error? ==> r == Error(Hashed(env, listed).error)
  {
    var split := SplitNullTerminated(listed);
    if split.Error? {
      return Error(split.error);
    }
    var paths := SortPaths(split.value);
    SortedPathsFit(listed);
    var hashed, entries := HashEntries(env, paths);
    if hashed.Error? {
      return Error(hashed.error);
    }
    assert |paths| == |multiset(paths)| == |multiset(split.value)| == |split.value|;
    return Ok(Fingerprint(env.hash(hashed.value), |paths|));
  }

  // ---------- what the fingerprint determines ----------

  // The bytes behind the digest of one entry.
  function ContentOf(env: Env, path: ByteString): ByteString {
    match env.stateOf(path)
    case Missing => Ascii(DELETED)
    case Regular(_, content) => content
    case Symlink(target) => target
    case Other => []
  }

  // Digests have a fixed size, so collisions exist; none is hit by the values compared here.
  predicate NoCollision(hash: ByteString -> ByteString, s: ByteString, t: ByteString) {
    hash(s) == hash(t) ==> s == t
  }

  ghost predicate ContentsDistinguished(env: Env, other: Env, paths: seq<ByteString>) {
    forall p :: p in paths ==> NoCollision(env.hash, ContentOf(env, p), ContentOf(other, p))
  }

  lemma EntryDeterminesState(env: Env, other: Env, path: ByteString, otherPath: ByteString)
    requires env.hash == other.hash && NoCollision(env.hash, ContentOf(env, path), ContentOf(other, path))
    requires EntryOf(env, path).Ok? && EntryOf(env, path) == EntryOf(other, otherPath)
    ensures path == otherPath && env.stateOf(path) == other.stateOf(path)
  {
  }

  // The entries of a listing without its last path, and the last entry.
  lemma EntriesLast(env: Env, paths: seq<ByteString>)
    requires EntriesOf(env, paths).Ok?
    ensures paths == [] <==> EntriesOf(env, paths).value == []
    ensures paths != [] ==>
      var m := |paths| - 1;
      var entries := EntriesOf(env, paths).value;
      && EntryOf(env, paths[m]) == Ok(entries[|entries| - 1])
      && EntriesOf(env, paths[..m]) == Ok(entries[..|entries| - 1])
  {
  }

  lemma SnocEqual(a: seq<ByteString>, b: seq<ByteString>)
    requires a != [] && b != [] && a[..|a| - 1] == b[..|b| - 1] && a[|a| - 1] == b[|b| - 1]
    ensures a == b
  {
    assert a == a[..|a| - 1] + [a[|a| - 1]] && b == b[..|b| - 1] + [b[|b| - 1]];
  }

  lemma {:induction false} EntriesDetermineStates(
    env: Env, other: Env, paths: seq<ByteString>, otherPaths: seq<ByteString>)
    requires env.hash == other.hash && ContentsDistinguished(env, other, paths)
    requires EntriesOf(env, paths).Ok? && EntriesOf(env, paths) == EntriesOf(other, otherPaths)
    ensures paths == otherPaths && forall p :: p in paths ==> env.stateOf(p) == other.stateOf(p)
  {
    EntriesLast(env, paths);
    EntriesLast(other, otherPaths);
    if paths != [] {
      var m, n := |paths| - 1, |otherPaths| - 1;
      EntriesDetermineStates(env, other, paths[..m], otherPaths[..n]);
      EntryDeterminesState(env, other, paths[m], otherPaths[n]);
      SnocEqual(paths, otherPaths);
    }
  }

  lemma {:induction false} StatesDetermineEntries(env: Env, other: Env, paths: seq<ByteString>)
    requires env.hash == other.hash && env.isUtf8 == other.isUtf8
    requires forall p :: p in paths ==> env.stateOf(p) == other.stateOf(p)
    ensures EntriesOf(env, paths) == EntriesOf(other, paths)
  {
    if paths != [] {
      StatesDetermineEntries(env, other, paths[..|paths| - 1]);
    }
  }

  // What is hashed for a listing: its sorted paths, each with an entry.
  lemma HashedParts(env: Env, listed: ByteString) returns (sorted: seq<ByteString>, entries: seq<Entry>)
    requires IsDigest(env.hash) && |listed| < LENGTH_LIMIT && Hashed(env, listed).Ok?
    ensures sorted == SortPaths(Split(listed).value) && EntriesOf(env, sorted) == Ok(entries)
    ensures AllFit(entries) && Hashed(env, listed).value == PolicyLine() + Stream(entries)
    ensures forall p :: p in sorted <==> p in Split(listed).value
  {
    sorted := SortPaths(Split(listed).value);
    entries := EntriesOf(env, sorted).value;
    SortedPathsFit(listed);
    EntriesFit(env, sorted);
    SortKeysAscends(Split(listed).value);
  }

  lemma SamePolicyLine(x: ByteString, y: ByteString)
    requires PolicyLine() + x == PolicyLine() + y
    ensures x == y
  {
    var line := PolicyLine();
    assert x == (line + x)[|line|..] == (line + y)[|line|..] == y;
  }

  lemma EqualFingerprintsMeanEqualWorkspaces(env: Env, other: Env, listed: ByteString, otherListed: ByteString)
    requires env.hash == other.hash && IsDigest(env.hash)
    requires |listed| < LENGTH_LIMIT && |otherListed| < LENGTH_LIMIT
    requires Hashed(env, listed).Ok? && Hashed(other, otherListed).Ok?
    requires NoCollision(env.hash, Hashed(env, listed).value, Hashed(other, otherListed).value)
    requires ContentsDistinguished(env, other, Split(listed).value)
    requires env.hash(Hashed(env, listed).value) == other.hash(Hashed(other, otherListed).value)
    ensures multiset(Split(listed).value) == multiset(Split(otherListed).value)
    ensures forall p :: p in Split(listed).value ==> env.stateOf(p) == other.stateOf(p)
  {
    var sorted, a := HashedParts(env, listed);
    var otherSorted, b := HashedParts(other, otherListed);
    SamePolicyLine(Stream(a), Stream(b));
    StreamUnique(a, b);
    EntriesDetermineStates(env, other, sorted, otherSorted);
  }

  lemma EqualWorkspacesHaveEqualFingerprints(env: Env, other: Env, listed: ByteString, otherListed: ByteString)
    requires env.hash == other.hash && env.isUtf8 == other.isUtf8 && IsDigest(env.hash)
    requires |listed| < LENGTH_LIMIT && |otherListed| < LENGTH_LIMIT
    requires Hashed(env, listed).Ok? && Hashed(other, otherListed).Ok?
    requires multiset(Split(listed).value) == multiset(Split(otherListed).value)
    requires forall p :: p in Split(listed).value ==> env.stateOf(p) == other.stateOf(p)
    ensures Hashed(env, listed).value == Hashed(other, otherListed).value
  {
    var sorted, a := HashedParts(env, listed);
    var otherSorted, b := HashedParts(other, otherListed);
    SortForgetsOrder(Split(listed).value, Split(otherListed).value);
    StatesDetermineEntries(env, other, sorted);
  }

  // Two fingerprints are equal exactly when the same paths are listed, in whatever order, and every
  // listed path has the same kind, executable bit and content in both worktrees.
  lemma FingerprintDeterminesWorkspace(env: Env, other: Env, listed: ByteString, otherListed: ByteString)
    requires env.hash == other.hash && env.isUtf8 == other.isUtf8
    requires IsDigest(env.hash)
    requires |listed| < LENGTH_LIMIT && |otherListed| < LENGTH_LIMIT
    requires Hashed(env, listed).Ok? && Hashed(other, otherListed).Ok?
    requires NoCollision(env.hash, Hashed(env, listed).value, Hashed(other, otherListed).value)
    requires ContentsDistinguished(env, other, Split(listed).value)
    ensures env.hash(Hashed(env, listed).value) == other.hash(Hashed(other, otherListed).value) <==>
      (multiset(Split(listed).value) == multiset(Split(otherListed).value)
       && forall p :: p in Split(listed).value ==> env.stateOf(p) == other.stateOf(p))
  {
    if env.hash(Hashed(env, listed).value) == other.hash(Hashed(other, otherListed).value) {
      EqualFingerprintsMeanEqualWorkspaces(env, other, listed, otherListed);
    }
    if multiset(Split(listed).value) == multiset(Split(otherListed).value)
      && forall p :: p in Split(listed).value ==> env.stateOf(p) == other.stateOf(p)
    {
      EqualWorkspacesHaveEqualFingerprints(env, other, listed, otherListed);
    }
  }
}
