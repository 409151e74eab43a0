// What the bytes behind a workspace fingerprint say: a reader of the hashed stream, and the listing and
// file states that it finds there.
module FingerprintReader {
  import opened Sequences
  import opened Wrappers
  import opened Ordering
  import opened Bytes
  import opened WorkspaceFingerprint

  // The bytes are this ASCII text.
  predicate Spells(b: ByteString, text: string) {
    |b| == |text| && forall i :: 0 <= i < |b| ==> b[i] == text[i] as int
  }

  // A length of eight bytes, most significant first, and as many bytes.
  function ReadField(s: ByteString): (r: Option<(ByteString, ByteString)>)
    ensures r.Some? ==> |r.value.1| < |s|
  {
    if |s| < 8 || 8 + Decode(s[..8]) > |s| then None
    else
      var end := 8 + Decode(s[..8]);
      Some((s[8..end], s[end..]))
  }

  function KindOf(b: ByteString): Option<Kind> {
    if Spells(b, "deleted") then Some(Deleted)
    else if Spells(b, "file") then Some(File)
    else if Spells(b, "symlink") then Some(Link)
    else None
  }

  function FlagOf(b: ByteString): Option<bool> {
    if Spells(b, "executable") then Some(true)
    else if Spells(b, "non-executable") then Some(false)
    else None
  }

  // Path, kind, executable bit and digest.
  function ReadEntry(s: ByteString): (r: Option<(Entry, ByteString)>)
    ensures r.Some? ==> |r.value.1| < |s|
  {
    var path :- ReadField(s);
    var kind :- ReadField(path.1);
    var flag :- ReadField(kind.1);
    var digest :- ReadField(flag.1);
    var k :- KindOf(kind.0);
    var executable :- FlagOf(flag.0);
    Some((Entry(path.0, k, executable, digest.0), digest.1))
  }

  function ReadStream(s: ByteString): Option<seq<Entry>>
    decreases |s|
  {
    if s == [] then Some([])
    else
      var first :- ReadEntry(s);
      var more :- ReadStream(first.1);
      Some([first.0] + more)
  }

  lemma {:induction false} FieldIsRead(v: ByteString, x: ByteString)
    requires |v| < LENGTH_LIMIT
    ensures ReadField(Field(v) + x) == Some((v, x))
  {
    LimitIsWidth();
    DecodeUndoesBigEndian(|v|, LENGTH_BYTES);
    var s := Field(v) + x;
    assert s[..8] == BigEndian(|v|, LENGTH_BYTES);
    assert s[8..8 + |v|] == v && s[8 + |v|..] == x;
  }

  lemma {:induction false} KindIsRead(kind: Kind)
    ensures KindOf(KindBytes(kind)) == Some(kind)
  {
    var b := KindBytes(kind);
    assert kind == Link ==> |b| == 7 && b[0] == 's' as int && "deleted"[0] == 'd';
  }

  lemma {:induction false} FlagIsRead(executable: bool)
    ensures FlagOf(ExecutableBytes(executable)) == Some(executable)
  {
  }

  lemma {:induction false} EntryIsRead(entry: Entry, x: ByteString)
    requires Fits(entry)
    ensures ReadEntry(EntryBytes(entry) + x) == Some((entry, x))
  {
    var digest := Field(entry.digest) + x;
    var flag := Field(ExecutableBytes(entry.executable)) + digest;
    var kind := Field(KindBytes(entry.kind)) + flag;
    EntrySplit(entry, x);
    FieldIsRead(entry.path, kind);
    FieldIsRead(KindBytes(entry.kind), flag);
    FieldIsRead(ExecutableBytes(entry.executable), digest);
    FieldIsRead(entry.digest, x);
    KindIsRead(entry.kind);
    FlagIsRead(entry.executable);
  }

  // The stream is read back entry by entry.
  lemma {:induction false} StreamIsRead(entries: seq<Entry>, s: ByteString)
    requires AllFit(entries) && s == Stream(entries)
    ensures ReadStream(s) == Some(entries)
  {
    if entries != [] {
      var more := Stream(entries[1..]);
      StreamHead(entries);
      EntryIsRead(entries[0], more);
      StreamIsRead(entries[1..], more);
      NextEntry(s, entries[0], more, entries[1..]);
      assert entries == [entries[0]] + entries[1..];
    }
  }

  lemma {:induction false} NextEntry(s: ByteString, entry: Entry, rest: ByteString, more: seq<Entry>)
    requires s != [] && ReadEntry(s) == Some((entry, rest)) && ReadStream(rest) == Some(more)
    ensures ReadStream(s) == Some([entry] + more)
  {
  }

  // ---------- what is found in it ----------

  // The entry says what is at its path.
  predicate Describes(env: Env, entry: Entry) {
    && env.isUtf8(entry.path)
    && match env.stateOf(entry.path)
       case Missing => entry.kind == Deleted && !entry.executable && entry.digest == env.hash(Ascii("deleted"))
       case Regular(executable, content) =>
         entry.kind == File && entry.executable == executable && entry.digest == env.hash(content)
       case Symlink(target) => entry.kind == Link && !entry.executable && entry.digest == env.hash(target)
       case Other => false
  }

  // The one is not behind the other, byte by byte.
  predicate NotBehind(a: ByteString, b: ByteString) {
    exists k :: 0 <= k <= |a| && k <= |b| && a[..k] == b[..k] && (k == |a| || (k < |b| && a[k] < b[k]))
  }

  predicate AllDescribe(env: Env, entries: seq<Entry>) {
    forall i :: 0 <= i < |entries| ==> Describes(env, entries[i])
  }

  function PathsOf(entries: seq<Entry>): (paths: seq<ByteString>)
    ensures |paths| == |entries| && forall i :: 0 <= i < |entries| ==> paths[i] == entries[i].path
  {
    if entries == [] then [] else [entries[0].path] + PathsOf(entries[1..])
  }

  // The bytes are the policy line and a stream with one entry for each listed path, in byte order.
  ghost predicate IsRecord(env: Env, listed: seq<ByteString>, bytes: ByteString, entries: seq<Entry>) {
    && |bytes| >= 29 && Spells(bytes[..29], "git-workspace-fingerprint-v1\0")
    && ReadStream(bytes[29..]) == Some(entries)
    && multiset(PathsOf(entries)) == multiset(listed)
    && (forall i, j :: 0 <= i < j < |entries| ==> NotBehind(entries[i].path, entries[j].path))
    && AllDescribe(env, entries)
  }

  lemma {:induction false} EntryDescribes(env: Env, path: ByteString)
    ensures EntryOf(env, path).Ok? <==> env.isUtf8(path) && !env.stateOf(path).Other?
    ensures EntryOf(env, path).Ok? ==> Describes(env, EntryOf(env, path).value) && EntryOf(env, path).value.path == path
    ensures EntryOf(env, path).Error? ==>
      EntryOf(env, path).error == if env.isUtf8(path) then Unsupported(path) else NotUtf8(path)
  {
    assert Ascii("deleted") == Ascii(DELETED);
  }

  lemma {:induction false} EntriesDescribe(env: Env, paths: seq<ByteString>, entries: seq<Entry>)
    requires EntriesOf(env, paths) == Ok(entries)
    ensures PathsOf(entries) == paths && AllDescribe(env, entries)
  {
    EntriesLast(env, paths);
    if paths != [] {
      var front, path := paths[..|paths| - 1], paths[|paths| - 1];
      var before, last := entries[..|entries| - 1], entries[|entries| - 1];
      EntriesDescribe(env, front, before);
      EntryDescribes(env, path);
      PathsOfSnoc(before, last);
      AllDescribeSnoc(env, before, last);
      assert entries == before + [last] && paths == front + [path];
    }
  }

  lemma {:induction false} AllDescribeSnoc(env: Env, entries: seq<Entry>, entry: Entry)
    requires AllDescribe(env, entries) && Describes(env, entry)
    ensures AllDescribe(env, entries + [entry])
  {
  }

  lemma {:induction false} PathsOfSnoc(entries: seq<Entry>, entry: Entry)
    ensures PathsOf(entries + [entry]) == PathsOf(entries) + [entry.path]
  {
  }

  lemma {:induction false} LessIsNotBehind(a: seq<int>, b: seq<int>, k: nat)
    requires k <= |a| && k <= |b| && a[..k] == b[..k] && !Less(b[k..], a[k..])
    ensures exists n :: k <= n <= |a| && n <= |b| && a[..n] == b[..n] && (n == |a| || (n < |b| && a[n] < b[n]))
    decreases |a| - k
  {
    if k < |a| && k < |b| && a[k] == b[k] {
      assert a[k..][1..] == a[k + 1..] && b[k..][1..] == b[k + 1..];
      assert a[..k + 1] == a[..k] + [a[k]] && b[..k + 1] == b[..k] + [b[k]];
      LessIsNotBehind(a, b, k + 1);
    } else {
      assert k <= k <= |a|;
    }
  }

  lemma {:induction false} SortedIsInOrder(paths: seq<ByteString>)
    ensures var sorted := SortPaths(paths);
      forall i, j :: 0 <= i < j < |sorted| ==> NotBehind(sorted[i], sorted[j])
  {
    var sorted := SortPaths(paths);
    SortKeysAscends(paths);
    forall i, j | 0 <= i < j < |sorted| ensures NotBehind(sorted[i], sorted[j]) {
      assert !Less(sorted[j], sorted[i]);
      assert sorted[i][0..] == sorted[i] && sorted[j][0..] == sorted[j];
      LessIsNotBehind(sorted[i], sorted[j], 0);
    }
  }

  lemma {:induction false} PolicyIsFirst(x: ByteString)
    ensures var bytes := PolicyLine() + x;
      |bytes| >= 29 && Spells(bytes[..29], "git-workspace-fingerprint-v1\0") && bytes[29..] == x
  {
    assert |PolicyLine()| == 29;
    var bytes := PolicyLine() + x;
    assert bytes[..29] == PolicyLine();
  }

  // The hashed bytes record the workspace.
  lemma {:induction false} HashedIsRecord(env: Env, listed: ByteString)
    requires IsDigest(env.hash) && |listed| < LENGTH_LIMIT && Hashed(env, listed).Ok?
    ensures exists entries :: IsRecord(env, Split(listed).value, Hashed(env, listed).value, entries)
  {
    var paths := Split(listed).value;
    var sorted, entries := HashedParts(env, listed);
    StreamIsRead(entries, Stream(entries));
    PolicyIsFirst(Stream(entries));
    EntriesDescribe(env, sorted, entries);
    SortedIsInOrder(paths);
    assert IsRecord(env, paths, Hashed(env, listed).value, entries);
  }

  // There is a fingerprint exactly when the listing is terminated and each path is text and names a file, a
  // link or nothing; an error names a path for which that fails.
  lemma {:induction false} HashedIff(env: Env, listed: ByteString)
    requires IsDigest(env.hash) && |listed| < LENGTH_LIMIT
    ensures Hashed(env, listed).Ok? <==>
      Split(listed).Ok? && forall p :: p in Split(listed).value ==> env.isUtf8(p) && !env.stateOf(p).Other?
    ensures Hashed(env, listed).Error? ==>
      match Hashed(env, listed).error
      case NotNulTerminated => listed != [] && listed[|listed| - 1] != 0
      case NotUtf8(p) => Split(listed).Ok? && p in Split(listed).value && !env.isUtf8(p)
      case Unsupported(p) => Split(listed).Ok? && p in Split(listed).value && env.isUtf8(p) && env.stateOf(p).Other?
  {
    SplitYieldsPaths(listed);
    if Split(listed).Ok? {
      var paths := Split(listed).value;
      var sorted := SortPaths(paths);
      EntriesIff(env, sorted);
      assert forall p :: p in sorted <==> p in multiset(sorted);
      assert forall p :: p in paths <==> p in multiset(paths);
    }
  }

  lemma {:induction false} EntriesIff(env: Env, paths: seq<ByteString>)
    ensures EntriesOf(env, paths).Ok? <==> forall p :: p in paths ==> env.isUtf8(p) && !env.stateOf(p).Other?
    ensures EntriesOf(env, paths).Error? ==>
      match EntriesOf(env, paths).error
      case NotNulTerminated => false
      case NotUtf8(p) => p in paths && !env.isUtf8(p)
      case Unsupported(p) => p in paths && env.isUtf8(p) && env.stateOf(p).Other?
  {
    if paths != [] {
      var m := |paths| - 1;
      EntriesIff(env, paths[..m]);
      EntryDescribes(env, paths[m]);
      assert paths == paths[..m] + [paths[m]];
    }
  }
}
