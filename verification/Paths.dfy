// Resolved absolute paths as strings, and the containment test the runtime tools apply to them.
module Paths {

  const SEPARATOR := "/"

  // The candidate is the parent itself or lies below it.
  predicate IsSameOrNested(candidate: string, parent: string) {
    candidate == parent || parent + SEPARATOR <= candidate
  }

  predicate Disjoint(left: string, right: string) {
    !IsSameOrNested(left, right) && !IsSameOrNested(right, left)
  }

  predicate EndsWith(s: string, end: string) {
    |end| <= |s| && s[|s| - |end|..] == end
  }

  // `extname(path) === extension`: a base name that is only the extension has none.
  predicate HasExtension(path: string, extension: string) {
    EndsWith(path, extension) && !EndsWith(path, SEPARATOR + extension) && path != extension
  }

  // Two roots that share a path are nested in each other: disjoint roots share no path at all.
  lemma SharedPathMeansNested(path: string, left: string, right: string)
    requires IsSameOrNested(path, left) && IsSameOrNested(path, right)
    ensures !Disjoint(left, right)
  {
    if |left| < |right| {
      NestedInLonger(path, left, right);
    } else if |right| < |left| {
      NestedInLonger(path, right, left);
    } else {
      assert left == path[..|left|] == right;
    }
  }

  lemma NestedInLonger(path: string, short: string, long: string)
    requires |short| < |long|
    requires IsSameOrNested(path, short) && IsSameOrNested(path, long)
    ensures IsSameOrNested(long, short)
  {
    assert long == path[..|long|];
    assert path[..|short| + 1] == short + SEPARATOR;
    assert long[..|short| + 1] == path[..|short| + 1];
  }

  // No path lies at or below both roots.
  ghost predicate ShareNothing(a: string, b: string) {
    forall path :: !(IsSameOrNested(path, a) && IsSameOrNested(path, b))
  }

  lemma {:induction false} DisjointIff(a: string, b: string)
    ensures Disjoint(a, b) <==> ShareNothing(a, b)
  {
    if Disjoint(a, b) {
      forall path ensures !(IsSameOrNested(path, a) && IsSameOrNested(path, b)) {
        if IsSameOrNested(path, a) && IsSameOrNested(path, b) {
          SharedPathMeansNested(path, a, b);
        }
      }
    } else {
      assert IsSameOrNested(a, a) && IsSameOrNested(b, b);
      assert (IsSameOrNested(a, a) && IsSameOrNested(a, b)) || (IsSameOrNested(b, a) && IsSameOrNested(b, b));
    }
  }

  // `assertSafeRetirableRoot`: the file-system root and its direct children are too broad to delete.
  predicate TooBroad(root: string) {
    root == SEPARATOR || (|root| > 0 && '/' !in root[1..])
  }

  ghost predicate PairwiseDisjoint(roots: seq<string>) {
    forall i, j :: 0 <= i < j < |roots| ==> Disjoint(roots[i], roots[j])
  }

  // `assertDisjointRoots`: the two nested loops over all pairs.
  method CheckDisjointRoots(roots: seq<string>) returns (ok: bool)
    ensures ok <==> PairwiseDisjoint(roots)
  {
    for left := 0 to |roots|
      invariant forall i, j :: 0 <= i < left && i < j < |roots| ==> Disjoint(roots[i], roots[j])
    {
      for right := left + 1 to |roots|
        invariant forall j :: left < j < right ==> Disjoint(roots[left], roots[j])
      {
        if IsSameOrNested(roots[left], roots[right]) || IsSameOrNested(roots[right], roots[left]) {
          assert !Disjoint(roots[left], roots[right]);
          return false;
        }
      }
    }
    return true;
  }

  // ---------- paths by their names ----------

  predicate IsName(name: string) {
    name != "" && '/' !in name
  }

  predicate AreNames(names: seq<string>) {
    forall i :: 0 <= i < |names| ==> IsName(names[i])
  }

  // The absolute path with these names.
  function PathOf(names: seq<string>): string {
    if names == [] then "" else SEPARATOR + names[0] + PathOf(names[1..])
  }

  lemma {:induction false} PathBegins(names: seq<string>)
    ensures names != [] ==> PathOf(names) != "" && PathOf(names)[0] == '/'
  {
  }

  // The text in front of the first separator.
  function FirstName(s: string): string {
    if s == "" || s[0] == '/' then "" else [s[0]] + FirstName(s[1..])
  }

  lemma {:induction false} FirstNameIs(name: string, rest: string)
    requires '/' !in name && (rest == "" || rest[0] == '/')
    ensures FirstName(name + rest) == name
  {
    if name == "" {
      assert name + rest == rest;
    } else {
      FirstNameIs(name[1..], rest);
      assert (name + rest)[1..] == name[1..] + rest;
      assert name == [name[0]] + name[1..];
    }
  }

  lemma {:induction false} SameFirstName(s: string, rest: string)
    requires '/' in s
    ensures FirstName(s + rest) == FirstName(s)
  {
    assert (s + rest)[0] == s[0];
    if s[0] != '/' {
      SameFirstName(s[1..], rest);
      assert (s + rest)[1..] == s[1..] + rest;
    }
  }

  // The containment test on texts is containment of directories: the names of the parent come first.
  lemma {:induction false} NestedIff(a: seq<string>, b: seq<string>)
    requires AreNames(a) && AreNames(b)
    ensures IsSameOrNested(PathOf(a), PathOf(b)) <==> b <= a
    decreases |b|
  {
    PathBegins(a);
    PathBegins(b);
    if b == [] {
      assert "" + SEPARATOR == SEPARATOR;
    } else if a != [] {
      var x, y := PathOf(a[1..]), PathOf(b[1..]);
      PathBegins(a[1..]);
      PathBegins(b[1..]);
      assert IsName(a[0]) && IsName(b[0]);
      NestedNames(a[0], b[0], x, y);
      if a[0] == b[0] {
        NestedIff(a[1..], b[1..]);
        SameFront(SEPARATOR + a[0], x, y);
        assert b <= a <==> b[1..] <= a[1..];
      }
    }
  }

  lemma {:induction false} SameFront(front: string, x: string, y: string)
    ensures IsSameOrNested(front + x, front + y) <==> IsSameOrNested(x, y)
  {
    var p, q := front + x, front + y + SEPARATOR;
    assert q == front + (y + SEPARATOR);
    if y + SEPARATOR <= x {
      assert p[..|q|] == front + x[..|y + SEPARATOR|];
    }
    if q <= p {
      assert p[|front|..] == x && p[..|q|] == q;
      assert x[..|y| + 1] == q[|front|..] == y + SEPARATOR;
    }
    if front + x == front + y {
      assert x == (front + x)[|front|..] == (front + y)[|front|..] == y;
    }
  }

  lemma {:induction false} NestedNames(a: string, b: string, x: string, y: string)
    requires IsName(a) && IsName(b) && (x == "" || x[0] == '/') && (y == "" || y[0] == '/')
    ensures IsSameOrNested(SEPARATOR + a + x, SEPARATOR + b + y) ==> a == b
  {
    var p, q := SEPARATOR + a + x, SEPARATOR + b + y;
    assert p[1..] == a + x && q[1..] == b + y;
    FirstNameIs(a, x);
    FirstNameIs(b, y);
    if q + SEPARATOR <= p {
      assert (q + SEPARATOR)[1..] == b + (y + SEPARATOR);
      LongerFirstName(b, y + SEPARATOR, a + x);
    }
  }

  lemma {:induction false} LongerFirstName(b: string, y: string, s: string)
    requires IsName(b) && y != "" && y[0] == '/' && b + y <= s
    ensures FirstName(s) == b
  {
    assert (b + y)[|b|] == '/';
    SameFirstName(b + y, s[|b + y|..]);
    assert s == b + y + s[|b + y|..];
    FirstNameIs(b, y);
  }

  lemma {:induction false} EndsAt(s: string, end: string)
    requires EndsWith(s, end)
    ensures forall k :: |s| - |end| <= k < |s| ==> s[k] == end[k - (|s| - |end|)]
  {
    forall k | |s| - |end| <= k < |s| ensures s[k] == end[k - (|s| - |end|)] {
      assert s[|s| - |end|..][k - (|s| - |end|)] == s[k];
    }
  }

  lemma {:induction false} EndsInName(directory: string, name: string, end: string)
    requires '/' !in end
    ensures EndsWith(directory + SEPARATOR + name, end) <==> EndsWith(name, end)
  {
    var front, path := directory + SEPARATOR, directory + SEPARATOR + name;
    assert path[|directory|] == '/';
    if EndsWith(path, end) {
      EndsAt(path, end);
      assert |end| <= |name|;
      assert path[|path| - |end|..] == name[|name| - |end|..];
    }
    if EndsWith(name, end) {
      assert path[|path| - |end|..] == name[|name| - |end|..];
    }
  }

  lemma {:induction false} EndsInSeparator(directory: string, name: string, end: string)
    requires '/' !in name && '/' !in end
    ensures EndsWith(directory + SEPARATOR + name, SEPARATOR + end) <==> name == end
  {
    var path := directory + SEPARATOR + name;
    if EndsWith(path, SEPARATOR + end) {
      EndsAt(path, SEPARATOR + end);
      var k := |path| - |end| - 1;
      assert path[k] == '/';
      assert path[|directory|] == '/' && forall j :: |directory| < j < |path| ==> path[j] == name[j - |directory| - 1];
      assert k <= |directory|;
      forall j | k < j < |path| ensures path[j] != '/' {
        assert path[j] == (SEPARATOR + end)[j - k] == end[j - k - 1];
      }
      assert path[k + 1..] == name && path[k..] == SEPARATOR + end;
    }
    if name == end {
      assert path[|directory|..] == SEPARATOR + end;
    }
  }

  // The extension of a file is that of its name: the name ends in it and is more than it.
  lemma {:induction false} ExtensionOfName(directory: string, name: string, extension: string)
    requires IsName(name) && IsName(extension)
    ensures HasExtension(directory + SEPARATOR + name, extension) <==>
      |extension| < |name| && name[|name| - |extension|..] == extension
  {
    EndsInName(directory, name, extension);
    EndsInSeparator(directory, name, extension);
    assert (directory + SEPARATOR + name)[|directory|] == '/';
    assert |name| == |extension| ==> name[0..] == name;
  }
}
