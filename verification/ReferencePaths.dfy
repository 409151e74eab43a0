// Which files of a runtime tree hold references, by the text of their paths.
module ReferencePaths {
  import opened Paths
  import opened Relocation

  lemma {:induction false} PathSplits(names: seq<string>, k: nat)
    requires k <= |names|
    ensures PathOf(names) == PathOf(names[..k]) + PathOf(names[k..])
  {
    if k == 0 {
      assert names[..0] == [] && names[0..] == names;
    } else {
      PathSplits(names[1..], k - 1);
      assert names[1..][..k - 1] == names[1..k] && names[1..][k - 1..] == names[k..];
      assert names[..k][1..] == names[1..k];
    }
  }

  // A separator stands in front of a name.
  lemma {:induction false} SeparatorIsBoundary(names: seq<string>, q: nat) returns (k: nat)
    requires AreNames(names) && q < |PathOf(names)| && PathOf(names)[q] == '/'
    ensures k < |names| && |PathOf(names[..k])| == q
  {
    var front, rest := SEPARATOR + names[0], PathOf(names[1..]);
    assert IsName(names[0]) && PathOf(names) == front + rest;
    if q == 0 {
      k := 0;
    } else {
      assert forall j :: 1 <= j < |front| ==> front[j] == names[0][j - 1] && front[j] != '/';
      assert rest[q - |front|] == '/';
      var j := SeparatorIsBoundary(names[1..], q - |front|);
      k := j + 1;
      assert names[..k][1..] == names[1..][..j] && names[..k][0] == names[0];
    }
  }

  // A path that begins with a whole name begins with the name.
  lemma {:induction false} BeginsWithName(names: seq<string>, name: string, tail: string)
    requires AreNames(names) && IsName(name) && tail != "" && tail[0] == '/' && SEPARATOR + name + tail <= PathOf(names)
    ensures names != [] && names[0] == name && tail <= PathOf(names[1..])
  {
    var rest := PathOf(names[1..]);
    PathBegins(names[1..]);
    assert IsName(names[0]) && PathOf(names)[1..] == names[0] + rest;
    assert (SEPARATOR + name + tail)[1..] == name + tail;
    assert PathOf(names)[1..][..|name + tail|] == name + tail;
    LongerFirstName(name, tail, names[0] + rest);
    FirstNameIs(names[0], rest);
    assert (names[0] + rest)[|name|..] == rest && (name + tail)[|name|..] == tail;
  }

  const MIDDLE := "/snapshots/projection-snapshots/"

  // The text holds the two directories, one in the other.
  predicate HoldsMiddle(path: string) {
    exists q :: 0 <= q <= |path| && MIDDLE <= path[q..]
  }

  // Two directories as they stand in a path.
  function Between(a: string, b: string): string {
    SEPARATOR + a + (SEPARATOR + b + SEPARATOR)
  }

  lemma {:induction false} MiddleIs(a: string, b: string)
    requires a == "snapshots" && b == "projection-snapshots"
    ensures MIDDLE == Between(a, b) && IsName(a) && IsName(b)
  {
  }

  lemma {:induction false} TwoNamesStand(names: seq<string>, i: nat, a: string, b: string, path: string)
    requires AreNames(names) && i + 2 < |names| && names[i] == a && names[i + 1] == b && path == PathOf(names)
    ensures exists q :: 0 <= q <= |path| && Between(a, b) <= path[q..]
  {
    var front, back := PathOf(names[..i]), PathOf(names[i + 2..]);
    PathSplits(names, i);
    PathBegins(names[i + 2..]);
    assert names[i..][1..] == names[i + 1..] && names[i + 1..][1..] == names[i + 2..];
    assert PathOf(names[i + 1..]) == SEPARATOR + b + back;
    assert PathOf(names[i..]) == SEPARATOR + a + (SEPARATOR + b + back);
    assert back == SEPARATOR + back[1..];
    assert PathOf(names[i..]) == Between(a, b) + back[1..];
    assert path[|front|..] == PathOf(names[i..]);
  }

  lemma {:induction false} TwoNamesFirst(names: seq<string>, a: string, b: string)
    requires AreNames(names) && IsName(a) && IsName(b) && Between(a, b) <= PathOf(names)
    ensures |names| > 2 && names[0] == a && names[1] == b
  {
    BeginsWithName(names, a, SEPARATOR + b + SEPARATOR);
    BeginsWithName(names[1..], b, SEPARATOR);
    assert names[1..][1..] == names[2..] && names[1..][0] == names[1];
  }

  lemma {:induction false} NamedInMiddle(names: seq<string>, path: string) returns (i: nat)
    requires AreNames(names) && path == PathOf(names) && HoldsMiddle(path)
    ensures i + 2 < |names| && names[i] == "snapshots" && names[i + 1] == "projection-snapshots"
  {
    var q :| 0 <= q <= |path| && MIDDLE <= path[q..];
    assert path[q] == path[q..][0] == MIDDLE[0] == '/';
    i := SeparatorIsBoundary(names, q);
    PathSplits(names, i);
    assert path[q..] == PathOf(names[i..]);
    MiddleIs("snapshots", "projection-snapshots");
    TwoNamesFirst(names[i..], "snapshots", "projection-snapshots");
    assert names[i..][0] == names[i] && names[i..][1] == names[i + 1];
  }

  lemma {:induction false} LastNameEnds(names: seq<string>, end: string)
    requires names != [] && '/' !in end
    ensures EndsWith(PathOf(names), end) <==> EndsWith(names[|names| - 1], end)
  {
    var k := |names| - 1;
    PathSplits(names, k);
    assert names[k..] == [names[k]] && names[k..][1..] == [];
    assert PathOf(names[k..]) == SEPARATOR + names[k] + "";
    assert PathOf(names) == PathOf(names[..k]) + SEPARATOR + names[k];
    EndsInName(PathOf(names[..k]), names[k], end);
  }

  // A snapshot file has the two directories in its path and ends in `.json`; a checkpoint file has its name.
  lemma {:induction false} ReferenceFileIff(names: seq<string>)
    requires AreNames(names)
    ensures IsSnapshotFile(names) <==>
      names != [] && HoldsMiddle(PathOf(names)) && EndsWith(PathOf(names), ".json")
    ensures IsCheckpointFile(names) <==> names != [] && names[|names| - 1] == "projection-checkpoints.jsonl"
    ensures IsReferenceFile(names) <==> IsSnapshotFile(names) || IsCheckpointFile(names)
  {
    if names != [] {
      LastNameEnds(names, ".json");
      if HoldsMiddle(PathOf(names)) {
        var i := NamedInMiddle(names, PathOf(names));
      }
      if exists i :: 0 <= i < |names| - 2 && names[i] == "snapshots" && names[i + 1] == "projection-snapshots" {
        var i :| 0 <= i < |names| - 2 && names[i] == "snapshots" && names[i + 1] == "projection-snapshots";
        MiddleIs(names[i], names[i + 1]);
        TwoNamesStand(names, i, names[i], names[i + 1], PathOf(names));
      }
    }
  }

  // Containment of paths as lists of names is that of their texts.
  lemma {:induction false} UnderIff(path: Path, root: Path)
    requires AreNames(path) && AreNames(root)
    ensures IsUnder(path, root) <==> IsSameOrNested(PathOf(path), PathOf(root))
  {
    NestedIff(path, root);
  }
}
