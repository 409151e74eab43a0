// Lexicographic order on strings and byte strings, and the unique sorted form of a list under it.
module Ordering {

  // Strict lexicographic order of sequences of numbers (bytes or code units).
  predicate Less(a: seq<int>, b: seq<int>) {
    b != [] && (a == [] || a[0] < b[0] || (a[0] == b[0] && Less(a[1..], b[1..])))
  }

  lemma {:induction false} LessIsTotal(a: seq<int>, b: seq<int>)
    ensures Less(a, b) || a == b || Less(b, a)
  {
    if a != [] && b != [] && a[0] == b[0] {
      LessIsTotal(a[1..], b[1..]);
      assert a == [a[0]] + a[1..] && b == [b[0]] + b[1..];
    }
  }

  lemma {:induction false} LessIsTransitive(a: seq<int>, b: seq<int>, c: seq<int>)
    requires Less(a, b) && Less(b, c)
    ensures Less(a, c)
  {
    if a != [] && a[0] == b[0] && b[0] == c[0] {
      LessIsTransitive(a[1..], b[1..], c[1..]);
    }
  }

  lemma {:induction false} LessIsAsymmetric(a: seq<int>, b: seq<int>)
    requires Less(a, b)
    ensures !Less(b, a) && a != b
  {
    if a != [] && a[0] == b[0] {
      LessIsAsymmetric(a[1..], b[1..]);
    }
  }

  function Codes(s: string): (r: seq<int>)
    ensures |r| == |s| && forall i :: 0 <= i < |s| ==> r[i] == s[i] as int
  {
    seq(|s|, i requires 0 <= i < |s| => s[i] as int)
  }

  lemma CodesAreInjective(a: string, b: string)
    requires Codes(a) == Codes(b)
    ensures a == b
  {
    assert |a| == |Codes(a)| == |b|;
    forall i | 0 <= i < |a| ensures a[i] == b[i] {
      assert Codes(a)[i] == Codes(b)[i];
    }
  }

  // ---------- sorting by a key ----------

  function Insert<T>(key: T -> seq<int>, x: T, xs: seq<T>): seq<T> {
    if xs == [] then [x]
    else if Less(key(xs[0]), key(x)) then [xs[0]] + Insert(key, x, xs[1..])
    else [x] + xs
  }

  // A stable sort by the given key.
  function Sort<T>(key: T -> seq<int>, xs: seq<T>): seq<T> {
    if xs == [] then [] else Insert(key, xs[0], Sort(key, xs[1..]))
  }

  lemma {:induction false} InsertMembers<T>(key: T -> seq<int>, x: T, xs: seq<T>)
    ensures forall y :: y in Insert(key, x, xs) <==> y == x || y in xs
    ensures |Insert(key, x, xs)| == |xs| + 1
  {
    if xs != [] {
      InsertMembers(key, x, xs[1..]);
      assert forall y :: y in xs <==> y == xs[0] || y in xs[1..];
    }
  }

  lemma {:induction false} SortMembers<T>(key: T -> seq<int>, xs: seq<T>)
    ensures forall y :: y in Sort(key, xs) <==> y in xs
    ensures |Sort(key, xs)| == |xs|
  {
    if xs != [] {
      SortMembers(key, xs[1..]);
      InsertMembers(key, xs[0], Sort(key, xs[1..]));
      assert forall y :: y in xs <==> y == xs[0] || y in xs[1..];
    }
  }

  // ---------- the keys of a sorted list ----------

  function Keys<T>(key: T -> seq<int>, xs: seq<T>): (keys: seq<seq<int>>)
    ensures |keys| == |xs| && forall i :: 0 <= i < |xs| ==> keys[i] == key(xs[i])
  {
    if xs == [] then [] else [key(xs[0])] + Keys(key, xs[1..])
  }

  function Identity(k: seq<int>): seq<int> {
    k
  }

  function SortKeys(keys: seq<seq<int>>): seq<seq<int>> {
    Sort(Identity, keys)
  }

  lemma {:induction false} InsertCommutes<T>(key: T -> seq<int>, x: T, xs: seq<T>)
    ensures Keys(key, Insert(key, x, xs)) == Insert(Identity, key(x), Keys(key, xs))
  {
    if xs != [] {
      InsertCommutes(key, x, xs[1..]);
      assert Keys(key, xs)[1..] == Keys(key, xs[1..]);
    }
  }

  // Sorting by key sorts the keys.
  lemma {:induction false} SortCommutes<T>(key: T -> seq<int>, xs: seq<T>)
    ensures Keys(key, Sort(key, xs)) == SortKeys(Keys(key, xs))
  {
    if xs != [] {
      SortCommutes(key, xs[1..]);
      InsertCommutes(key, xs[0], Sort(key, xs[1..]));
      assert Keys(key, xs)[1..] == Keys(key, xs[1..]);
    }
  }

  predicate Ascending(keys: seq<seq<int>>) {
    forall i, j :: 0 <= i < j < |keys| ==> !Less(keys[j], keys[i])
  }

  lemma NotLessIsTransitive(a: seq<int>, b: seq<int>, c: seq<int>)
    requires !Less(b, a) && !Less(c, b)
    ensures !Less(c, a)
  {
    LessIsTotal(a, b);
    LessIsTotal(b, c);
    if Less(c, a) && Less(a, b) {
      LessIsTransitive(c, a, b);
    }
  }

  lemma FirstIsLeast(keys: seq<seq<int>>, k: seq<int>)
    requires Ascending(keys) && k in keys
    ensures !Less(k, keys[0])
  {
    var i :| 0 <= i < |keys| && keys[i] == k;
    if i == 0 && Less(k, keys[0]) {
      LessIsAsymmetric(k, k);
    }
  }

  lemma {:induction false} InsertKeepsAll<T>(key: T -> seq<int>, x: T, xs: seq<T>)
    ensures multiset(Insert(key, x, xs)) == multiset(xs) + multiset{x}
  {
    if xs != [] {
      InsertKeepsAll(key, x, xs[1..]);
      assert xs == [xs[0]] + xs[1..];
    }
  }

  lemma {:induction false} SortKeepsAll<T>(key: T -> seq<int>, xs: seq<T>)
    ensures multiset(Sort(key, xs)) == multiset(xs)
  {
    if xs != [] {
      SortKeepsAll(key, xs[1..]);
      InsertKeepsAll(key, xs[0], Sort(key, xs[1..]));
      assert xs == [xs[0]] + xs[1..];
    }
  }

  lemma ConsAscends(k: seq<int>, keys: seq<seq<int>>)
    requires Ascending(keys) && forall other :: other in keys ==> !Less(other, k)
    ensures Ascending([k] + keys)
  {
    assert forall i :: 0 <= i < |keys| ==> keys[i] in keys;
  }

  lemma {:induction false} InsertAscends(k: seq<int>, keys: seq<seq<int>>)
    requires Ascending(keys)
    ensures Ascending(Insert(Identity, k, keys))
  {
    if keys == [] {
    } else if Less(keys[0], k) {
      var first, tail := keys[0], keys[1..];
      InsertAscends(k, tail);
      InsertMembers(Identity, k, tail);
      LessIsAsymmetric(first, k);
      ConsAscends(first, Insert(Identity, k, tail));
    } else {
      forall other | other in keys ensures !Less(other, k) {
        FirstIsLeast(keys, other);
        NotLessIsTransitive(k, keys[0], other);
      }
      ConsAscends(k, keys);
    }
  }

  lemma {:induction false} SortKeysAscends(keys: seq<seq<int>>)
    ensures Ascending(SortKeys(keys)) && multiset(SortKeys(keys)) == multiset(keys)
    ensures forall k :: k in SortKeys(keys) <==> k in keys
  {
    SortMembers(Identity, keys);
    if keys != [] {
      SortKeysAscends(keys[1..]);
      InsertAscends(keys[0], SortKeys(keys[1..]));
      InsertKeepsAll(Identity, keys[0], SortKeys(keys[1..]));
      assert keys == [keys[0]] + keys[1..];
    }
  }

  // An ascending list is determined by its elements.
  lemma {:induction false} AscendingIsUnique(a: seq<seq<int>>, b: seq<seq<int>>)
    requires Ascending(a) && Ascending(b) && multiset(a) == multiset(b)
    ensures a == b
  {
    assert |multiset(a)| == |a| && |multiset(b)| == |b|;
    if a != [] {
      SameFirst(a, b);
      SameTails(a, b);
      AscendingIsUnique(a[1..], b[1..]);
      assert a == [a[0]] + a[1..] && b == [b[0]] + b[1..];
    }
  }

  lemma SameFirst(a: seq<seq<int>>, b: seq<seq<int>>)
    requires Ascending(a) && Ascending(b) && multiset(a) == multiset(b) && a != [] && b != []
    ensures a[0] == b[0]
  {
    assert a[0] in multiset(b) && b[0] in multiset(a);
    FirstIsLeast(a, b[0]);
    FirstIsLeast(b, a[0]);
    LessIsTotal(a[0], b[0]);
  }

  lemma SameTails(a: seq<seq<int>>, b: seq<seq<int>>)
    requires a != [] && b != [] && a[0] == b[0] && multiset(a) == multiset(b)
    ensures multiset(a[1..]) == multiset(b[1..])
  {
    assert a == [a[0]] + a[1..] && b == [b[0]] + b[1..];
    assert multiset(a[1..]) == multiset(a) - multiset{a[0]};
    assert multiset(b[1..]) == multiset(b) - multiset{b[0]};
  }

  // Sorting forgets the order in which the elements were listed.
  lemma SortForgetsOrder(a: seq<seq<int>>, b: seq<seq<int>>)
    requires multiset(a) == multiset(b)
    ensures SortKeys(a) == SortKeys(b)
  {
    SortKeysAscends(a);
    SortKeysAscends(b);
    AscendingIsUnique(SortKeys(a), SortKeys(b));
  }

  predicate Distinct(keys: seq<seq<int>>) {
    forall i, j :: 0 <= i < j < |keys| ==> keys[i] != keys[j]
  }

  lemma {:induction false} DistinctCounts(keys: seq<seq<int>>)
    requires Distinct(keys)
    ensures forall k :: multiset(keys)[k] == if k in keys then 1 else 0
  {
    if keys != [] {
      DistinctCounts(keys[1..]);
      assert keys == [keys[0]] + keys[1..];
    }
  }

  lemma SortForgetsOrderOfSets(a: seq<seq<int>>, b: seq<seq<int>>)
    requires Distinct(a) && Distinct(b) && forall k :: k in a <==> k in b
    ensures SortKeys(a) == SortKeys(b)
  {
    DistinctCounts(a);
    DistinctCounts(b);
    assert forall k :: multiset(a)[k] == multiset(b)[k];
    SortForgetsOrder(a, b);
  }
}
