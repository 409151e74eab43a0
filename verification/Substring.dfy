// Occurrences of one sequence in another, and replacement by `split` and `join`: how many occurrences
// are replaced, and when the result is free of the target.
module Substring {
  import opened Sequences
  import opened Wrappers

  predicate OccursAt<T(==)>(s: seq<T>, t: seq<T>, i: nat) {
    i + |t| <= |s| && Agree(s, t, i, |t|)
  }

  // The first n elements of the target stand at the position.
  predicate Agree<T(==)>(s: seq<T>, t: seq<T>, i: nat, n: nat)
    requires n <= |t| && i + |t| <= |s|
  {
    n == 0 || (s[i + (n - 1)] == t[n - 1] && Agree(s, t, i, n - 1))
  }

  lemma {:induction false} AgreeMeans<T>(s: seq<T>, t: seq<T>, i: nat, n: nat)
    requires n <= |t| && i + |t| <= |s|
    ensures Agree(s, t, i, n) <==> forall j :: 0 <= j < n ==> t[j] == s[i + j]
  {
    if n > 0 {
      AgreeMeans(s, t, i, n - 1);
    }
  }

  lemma ElementsOccur<T>(s: seq<T>, t: seq<T>, i: nat)
    requires i + |t| <= |s| && forall j :: 0 <= j < |t| ==> t[j] == s[i + j]
    ensures OccursAt(s, t, i)
  {
    AgreeMeans(s, t, i, |t|);
  }

  lemma OccurrenceElements<T>(s: seq<T>, t: seq<T>, i: nat)
    requires OccursAt(s, t, i)
    ensures forall j :: 0 <= j < |t| ==> t[j] == s[i + j]
  {
    AgreeMeans(s, t, i, |t|);
  }

  lemma {:induction false} ElementOf<T>(s: seq<T>, t: seq<T>, i: nat, j: nat)
    requires OccursAt(s, t, i) && j < |t|
    ensures t[j] == s[i + j]
  {
    OccurrenceElements(s, t, i);
  }

  predicate Contains<T(==)>(s: seq<T>, t: seq<T>) {
    exists i :: 0 <= i <= |s| && OccursAt(s, t, i)
  }

  lemma {:induction false} WholeContained<T>(s: seq<T>)
    ensures Contains(s, s)
  {
    ElementsOccur(s, s, 0);
  }

  lemma {:induction false} MiddleContained<T>(a: seq<T>, t: seq<T>, b: seq<T>)
    ensures Contains(a + t + b, t)
  {
    ElementsOccur(a + t + b, t, |a|);
  }

  lemma {:induction false} LeftContained<T>(a: seq<T>, b: seq<T>, t: seq<T>)
    requires Contains(a, t)
    ensures Contains(a + b, t)
  {
    var i :| 0 <= i <= |a| && OccursAt(a, t, i);
    OccurrenceElements(a, t, i);
    ElementsOccur(a + b, t, i);
  }

  lemma {:induction false} RightContained<T>(a: seq<T>, b: seq<T>, t: seq<T>)
    requires Contains(b, t)
    ensures Contains(a + b, t)
  {
    var i :| 0 <= i <= |b| && OccursAt(b, t, i);
    OccurrenceElements(b, t, i);
    forall j | 0 <= j < |t| ensures t[j] == (a + b)[|a| + i + j] {
      assert (a + b)[|a| + i + j] == b[i + j];
    }
    ElementsOccur(a + b, t, |a| + i);
  }

  lemma {:induction false} ContainsTransitive<T>(s: seq<T>, t: seq<T>, u: seq<T>)
    requires Contains(s, t) && Contains(t, u)
    ensures Contains(s, u)
  {
    var i :| 0 <= i <= |s| && OccursAt(s, t, i);
    var k :| 0 <= k <= |t| && OccursAt(t, u, k);
    OccurrenceElements(s, t, i);
    OccurrenceElements(t, u, k);
    forall j | 0 <= j < |u| ensures u[j] == s[i + k + j] {
      assert t[k + j] == s[i + (k + j)];
    }
    ElementsOccur(s, u, i + k);
  }

  predicate IsFirst<T(==)>(s: seq<T>, t: seq<T>, p: nat) {
    OccursAt(s, t, p) && forall i :: 0 <= i < p ==> !OccursAt(s, t, i)
  }

  // `indexOf`
  function First<T(==)>(s: seq<T>, t: seq<T>): (r: Option<nat>)
    ensures r.Some? ==> r.value + |t| <= |s|
  {
    if |s| < |t| then None
    else if OccursAt(s, t, 0) then Some(0)
    else if s == [] then None
    else
      var rest := First(s[1..], t);
      if rest.Some? then Some(rest.value + 1) else None
  }

  lemma {:induction false} FirstMeans<T>(s: seq<T>, t: seq<T>)
    ensures First(s, t).None? ==> !Contains(s, t)
    ensures First(s, t).Some? ==> IsFirst(s, t, First(s, t).value)
  {
    if |s| >= |t| && !OccursAt(s, t, 0) && s != [] {
      FirstMeans(s[1..], t);
      forall i | 0 < i <= |s| ensures OccursAt(s, t, i) <==> OccursAt(s[1..], t, i - 1) {
        TailOccurs(s, t, i);
      }
    }
  }

  lemma TailOccurs<T>(s: seq<T>, t: seq<T>, i: nat)
    requires 0 < i <= |s|
    ensures OccursAt(s, t, i) <==> OccursAt(s[1..], t, i - 1)
  {
    if i + |t| <= |s| {
      AgreeMeans(s, t, i, |t|);
      AgreeMeans(s[1..], t, i - 1, |t|);
    }
  }

  // An occurrence is a slice.
  lemma SliceOccurs<T>(s: seq<T>, t: seq<T>, i: nat)
    requires i + |t| <= |s|
    ensures OccursAt(s, t, i) <==> s[i..i + |t|] == t
  {
    AgreeMeans(s, t, i, |t|);
    var slice := s[i..i + |t|];
    if slice == t {
      forall j | 0 <= j < |t| ensures t[j] == s[i + j] {
        assert slice[j] == s[i + j];
      }
    }
  }

  // `split` on a non-empty separator: the occurrences are taken from the left without overlap.
  function Split<T(==)>(s: seq<T>, t: seq<T>): (parts: seq<seq<T>>)
    requires t != []
    ensures parts != []
  {
    var p := First(s, t);
    if p.None? then [s] else [s[..p.value]] + Split(s[p.value + |t|..], t)
  }

  function Join<T>(parts: seq<seq<T>>, r: seq<T>): seq<T>
    requires parts != []
  {
    if |parts| == 1 then parts[0] else parts[0] + r + Join(parts[1..], r)
  }

  function Replace<T(==)>(s: seq<T>, t: seq<T>, r: seq<T>): seq<T>
    requires t != []
  {
    Join(Split(s, t), r)
  }

  lemma ReplaceNone<T>(s: seq<T>, t: seq<T>, r: seq<T>)
    requires t != [] && First(s, t).None?
    ensures Replace(s, t, r) == s
  {
  }

  lemma ReplaceFirst<T>(s: seq<T>, t: seq<T>, r: seq<T>, p: nat)
    requires t != [] && First(s, t) == Some(p)
    ensures p + |t| <= |s| && Replace(s, t, r) == s[..p] + r + Replace(s[p + |t|..], t, r)
  {
    var parts := Split(s, t);
    assert parts[1..] == Split(s[p + |t|..], t);
  }

  lemma {:induction false} JoinUndoesSplit<T>(s: seq<T>, t: seq<T>)
    requires t != []
    ensures Replace(s, t, t) == s
    decreases |s|
  {
    FirstMeans(s, t);
    var p := First(s, t);
    if p.Some? {
      ReplaceFirst(s, t, t, p.value);
      JoinUndoesSplit(s[p.value + |t|..], t);
      CutAt(s, t, p.value);
    }
  }

  lemma CutAt<T>(s: seq<T>, t: seq<T>, p: nat)
    requires OccursAt(s, t, p)
    ensures s == s[..p] + t + s[p + |t|..]
  {
    SliceOccurs(s, t, p);
    assert s[..p] + s[p..p + |t|] == s[..p + |t|];
  }

  // An occurrence in a slice is one in the whole, and the other way round.
  lemma Shift<T>(s: seq<T>, t: seq<T>, from: nat, to: nat, i: nat)
    requires from <= to <= |s|
    requires OccursAt(s[from..to], t, i)
    ensures OccursAt(s, t, from + i)
  {
    OccurrenceElements(s[from..to], t, i);
    ElementsOccur(s, t, from + i);
  }

  lemma Unshift<T>(s: seq<T>, t: seq<T>, from: nat, to: nat, i: nat)
    requires from <= i && i + |t| <= to <= |s| && OccursAt(s, t, i)
    ensures OccursAt(s[from..to], t, i - from)
  {
    OccurrenceElements(s, t, i);
    ElementsOccur(s[from..to], t, i - from);
  }

  lemma {:induction false} PartsAreClean<T>(s: seq<T>, t: seq<T>)
    requires t != []
    ensures forall k :: 0 <= k < |Split(s, t)| ==> !Contains(Split(s, t)[k], t)
    decreases |s|
  {
    FirstMeans(s, t);
    var p := First(s, t);
    if p.Some? {
      PartsAreClean(s[p.value + |t|..], t);
      HeadIsClean(s, t, p.value);
    }
  }

  lemma HeadIsClean<T>(s: seq<T>, t: seq<T>, p: nat)
    requires t != [] && First(s, t) == Some(p)
    ensures !Contains(s[..p], t)
  {
    FirstMeans(s, t);
    if Contains(s[..p], t) {
      var i :| 0 <= i <= |s[..p]| && OccursAt(s[..p], t, i);
      assert s[..p] == s[0..p];
      Shift(s, t, 0, p, i);
    }
  }

  // ---------- how many occurrences are replaced ----------

  function Count<T(==)>(s: seq<T>, t: seq<T>): nat
    requires t != []
  {
    |Split(s, t)| - 1
  }

  // Positions of pairwise disjoint occurrences, from left to right.
  predicate DisjointOccurrences<T(==)>(s: seq<T>, t: seq<T>, positions: seq<int>) {
    && (forall k :: 0 <= k < |positions| ==> 0 <= positions[k] && OccursAt(s, t, positions[k]))
    && (forall k :: 0 < k < |positions| ==> positions[k - 1] + |t| <= positions[k])
  }

  function Moved(positions: seq<int>, shift: int): (r: seq<int>)
    ensures |r| == |positions| && forall k :: 0 <= k < |r| ==> r[k] == positions[k] + shift
  {
    seq(|positions|, k requires 0 <= k < |positions| => positions[k] + shift)
  }

  lemma {:induction false} CountIsMost<T>(s: seq<T>, t: seq<T>, positions: seq<int>)
    requires t != [] && DisjointOccurrences(s, t, positions)
    ensures |positions| <= Count(s, t)
    decreases |s|
  {
    if positions != [] {
      FirstIsLeast(s, t, positions[0]);
      var cut := First(s, t).value + |t|;
      LaterOccurrences(s, t, positions, cut);
      CountIsMost(s[cut..], t, Moved(positions[1..], 0 - cut));
    }
  }

  lemma FirstIsLeast<T>(s: seq<T>, t: seq<T>, i: nat)
    requires OccursAt(s, t, i)
    ensures First(s, t).Some? && First(s, t).value <= i
  {
    FirstMeans(s, t);
  }

  lemma LaterOccurrences<T>(s: seq<T>, t: seq<T>, positions: seq<int>, cut: nat)
    requires positions != [] && DisjointOccurrences(s, t, positions) && cut <= positions[0] + |t|
    ensures cut <= |s| && DisjointOccurrences(s[cut..], t, Moved(positions[1..], 0 - cut))
  {
    var later := positions[1..];
    forall k | 0 <= k < |later| ensures cut <= later[k] && OccursAt(s[cut..], t, later[k] - cut) {
      LaterIsFar(s, t, positions, k + 1);
      assert s[cut..] == s[cut..|s|];
      Unshift(s, t, cut, |s|, later[k]);
    }
  }

  lemma {:induction false} LaterIsFar<T>(s: seq<T>, t: seq<T>, positions: seq<int>, k: nat)
    requires DisjointOccurrences(s, t, positions) && k < |positions|
    ensures k > 0 ==> positions[0] + |t| <= positions[k]
    decreases k
  {
    if k > 1 {
      LaterIsFar(s, t, positions, k - 1);
    }
  }

  lemma {:induction false} CountAfterFirst<T>(s: seq<T>, t: seq<T>, p: nat)
    requires t != [] && First(s, t) == Some(p)
    ensures p + |t| <= |s| && Count(s, t) == 1 + Count(s[p + |t|..], t)
  {
  }

  // The occurrences that split takes from a position on.
  function Taken<T(==)>(s: seq<T>, t: seq<T>, from: nat): seq<int>
    requires t != [] && from <= |s|
    decreases |s| - from
  {
    var p := First(s[from..], t);
    if p.None? then [] else [from + p.value] + Taken(s, t, from + p.value + |t|)
  }

  lemma {:induction false} CountNone<T>(s: seq<T>, t: seq<T>, from: nat)
    requires t != [] && from <= |s| && First(s[from..], t).None?
    ensures Count(s[from..], t) == 0 && Taken(s, t, from) == []
  {
  }

  lemma {:induction false} CountNext<T>(s: seq<T>, t: seq<T>, from: nat, p: nat, next: nat)
    requires t != [] && from <= |s| && First(s[from..], t) == Some(p) && next == from + p + |t|
    ensures next <= |s| && Count(s[from..], t) == 1 + Count(s[next..], t) && OccursAt(s, t, from + p)
  {
    CountAfterFirst(s[from..], t, p);
    assert s[from..][p + |t|..] == s[next..];
    FirstMeans(s[from..], t);
    assert s[from..] == s[from..|s|];
    Shift(s, t, from, |s|, p);
  }

  lemma {:induction false} TakenNext<T>(s: seq<T>, t: seq<T>, from: nat, p: nat, next: nat)
    requires t != [] && from <= |s| && First(s[from..], t) == Some(p) && next == from + p + |t|
    ensures next <= |s| && Taken(s, t, from) == [from + p] + Taken(s, t, next)
  {
  }

  // Disjoint occurrences, all at or after a position, of a given number.
  predicate TakenFrom<T(==)>(s: seq<T>, t: seq<T>, from: nat, taken: seq<int>, number: nat) {
    |taken| == number && DisjointOccurrences(s, t, taken) && (taken == [] || from <= taken[0])
  }

  lemma {:induction false} TakenMeans<T>(s: seq<T>, t: seq<T>, from: nat)
    requires t != [] && from <= |s|
    ensures TakenFrom(s, t, from, Taken(s, t, from), Count(s[from..], t))
    decreases |s| - from
  {
    var f := First(s[from..], t);
    if f.None? {
      CountNone(s, t, from);
    } else {
      var p := f.value;
      var next := from + p + |t|;
      CountNext(s, t, from, p, next);
      TakenNext(s, t, from, p, next);
      TakenMeans(s, t, next);
      ConsOccurrence(s, t, from, p, next, Taken(s, t, next), Count(s[next..], t));
    }
  }

  lemma ConsOccurrence<T>(s: seq<T>, t: seq<T>, from: nat, p: nat, next: nat, rest: seq<int>, number: nat)
    requires next == from + p + |t| && OccursAt(s, t, from + p) && TakenFrom(s, t, next, rest, number)
    ensures TakenFrom(s, t, from, [from + p] + rest, 1 + number)
  {
  }

  // The count is the largest number of disjoint occurrences.
  lemma CountIsMaximum<T>(s: seq<T>, t: seq<T>)
    requires t != []
    ensures DisjointOccurrences(s, t, Taken(s, t, 0)) && |Taken(s, t, 0)| == Count(s, t)
    ensures forall positions :: DisjointOccurrences(s, t, positions) ==> |positions| <= Count(s, t)
  {
    assert s[0..] == s;
    TakenMeans(s, t, 0);
    forall positions | DisjointOccurrences(s, t, positions) ensures |positions| <= Count(s, t) {
      CountIsMost(s, t, positions);
    }
  }

  // ---------- when the result is free of the target ----------

  // The replacement ends with the first k elements of the target.
  predicate EndsWithHead<T(==)>(r: seq<T>, t: seq<T>, k: nat)
    requires k <= |t|
  {
    k <= |r| && r[|r| - k..] == t[..k]
  }

  // The replacement begins with the target without its first k elements.
  predicate BeginsWithTail<T(==)>(r: seq<T>, t: seq<T>, k: nat)
    requires k <= |t|
  {
    t[k..] <= r
  }

  // Neither sequence contains the other, and they overlap at neither end. A head of the target left in
  // front of the replacement only matters if it does not itself make the target occur further left.
  predicate Apart<T(==)>(t: seq<T>, r: seq<T>) {
    && !Contains(r, t) && !Contains(t, r)
    && (forall k :: 0 < k < |t| ==> !EndsWithHead(r, t, k))
    && (forall k :: 0 < k < |t| ==> !(BeginsWithTail(r, t, k) && IsFirst(t[..k] + t, t, k)))
  }

  lemma SliceIsFirst<T>(s: seq<T>, t: seq<T>, p: nat, q: nat, to: nat)
    requires IsFirst(s, t, p) && q <= p && to == p + |t| <= |s|
    ensures IsFirst(s[q..to], t, p - q)
  {
    Unshift(s, t, q, to, p);
    forall i | 0 <= i < p - q ensures !OccursAt(s[q..to], t, i) {
      if OccursAt(s[q..to], t, i) {
        Shift(s, t, q, to, i);
      }
    }
  }

  lemma NoEarlier<T>(s: seq<T>, t: seq<T>, p: nat, q: nat)
    requires t != [] && q < p && IsFirst(s, t, p)
    ensures IsFirst(s[q..p] + t, t, p - q)
  {
    UpToOccurrence(s, t, p, q);
    SliceIsFirst(s, t, p, q, p + |t|);
  }

  lemma UpToOccurrence<T>(s: seq<T>, t: seq<T>, p: nat, q: nat)
    requires OccursAt(s, t, p) && q <= p
    ensures s[q..p] + t == s[q..p + |t|]
  {
    SliceOccurs(s, t, p);
    assert s[q..p + |t|] == s[q..p] + s[p..p + |t|];
  }

  // Where an occurrence of the target may lie around a replacement.

  lemma WithinHead<T>(head: seq<T>, tail: seq<T>, t: seq<T>, q: nat)
    requires OccursAt(head + tail, t, q) && q + |t| <= |head|
    ensures OccursAt(head, t, q)
  {
    OccurrenceElements(head + tail, t, q);
    forall j | 0 <= j < |t| ensures t[j] == head[q + j] {
      assert (head + tail)[q + j] == head[q + j];
    }
    ElementsOccur(head, t, q);
  }

  lemma WithinTail<T>(head: seq<T>, tail: seq<T>, t: seq<T>, q: nat)
    requires OccursAt(head + tail, t, q) && |head| <= q
    ensures OccursAt(tail, t, q - |head|)
  {
    OccurrenceElements(head + tail, t, q);
    forall j | 0 <= j < |t| ensures t[j] == tail[q - |head| + j] {
      assert (head + tail)[q + j] == tail[q - |head| + j];
    }
    ElementsOccur(tail, t, q - |head|);
  }

  // An occurrence that begins in the head and ends in the tail splits the target.
  lemma Across<T>(head: seq<T>, tail: seq<T>, t: seq<T>, q: nat)
    requires OccursAt(head + tail, t, q) && q < |head| < q + |t|
    ensures head[q..] == t[..|head| - q] && t[|head| - q..] <= tail
  {
    var k := |head| - q;
    OccurrenceElements(head + tail, t, q);
    forall j | 0 <= j < k ensures head[q..][j] == t[j] {
      assert (head + tail)[q + j] == head[q + j];
    }
    forall j | 0 <= j < |t| - k ensures t[k..][j] == tail[j] {
      assert t[k + j] == (head + tail)[q + (k + j)];
    }
  }

  // A head of the target in front of its first occurrence, and the replacement beginning with the rest.
  lemma HeadThenTail<T>(s: seq<T>, t: seq<T>, r: seq<T>, p: nat, k: nat)
    requires t != [] && IsFirst(s, t, p) && 0 < k < |t| && k <= p && s[p - k..p] == t[..k] && BeginsWithTail(r, t, k)
    ensures !Apart(t, r)
  {
    NoEarlier(s, t, p, p - k);
  }

  // An occurrence that begins before the replacement and reaches into it.
  lemma AcrossLeft<T>(s: seq<T>, t: seq<T>, r: seq<T>, p: nat, rest: seq<T>, q: nat)
    requires t != [] && IsFirst(s, t, p) && q < p < q + |t| && OccursAt(s[..p] + (r + rest), t, q)
    ensures !Apart(t, r)
  {
    var k := p - q;
    Across(s[..p], r + rest, t, q);
    assert s[..p][q..] == s[q..p];
    if |t| - k <= |r| {
      TakeFromFront(t[k..], r, rest);
      HeadThenTail(s, t, r, p, k);
    } else {
      InsideTarget(t, r, rest, k);
    }
  }

  lemma TakeFromFront<T>(x: seq<T>, r: seq<T>, rest: seq<T>)
    requires x <= r + rest && |x| <= |r|
    ensures x <= r
  {
    assert x == (r + rest)[..|x|] == r[..|x|];
  }

  lemma InsideTarget<T>(t: seq<T>, r: seq<T>, rest: seq<T>, k: nat)
    requires k + |r| <= |t| && t[k..] <= r + rest
    ensures Contains(t, r)
  {
    forall j | 0 <= j < |r| ensures r[j] == t[k + j] {
      assert t[k..][j] == (r + rest)[j];
    }
    ElementsOccur(t, r, k);
  }

  // An occurrence that begins inside the replacement.
  lemma FromInside<T>(t: seq<T>, r: seq<T>, rest: seq<T>, q: nat)
    requires t != [] && q < |r| && OccursAt(r + rest, t, q)
    ensures Contains(r, t) || exists k :: 0 < k < |t| && EndsWithHead(r, t, k)
  {
    if q + |t| <= |r| {
      WithinHead(r, rest, t, q);
    } else {
      Across(r, rest, t, q);
      assert EndsWithHead(r, t, |r| - q);
    }
  }

  lemma OccurrenceBreaksApart<T>(s: seq<T>, t: seq<T>, r: seq<T>, p: nat, rest: seq<T>, q: nat)
    requires t != [] && First(s, t) == Some(p)
    requires OccursAt(s[..p] + (r + rest), t, q) && !Contains(rest, t)
    ensures !Apart(t, r)
  {
    FirstMeans(s, t);
    if q + |t| <= p {
      WithinHead(s[..p], r + rest, t, q);
      HeadIsClean(s, t, p);
    } else if q < p {
      AcrossLeft(s, t, r, p, rest, q);
    } else {
      WithinTail(s[..p], r + rest, t, q);
      if q - p < |r| {
        FromInside(t, r, rest, q - p);
      } else {
        WithinTail(r, rest, t, q - p);
      }
    }
  }

  lemma {:induction false} ApartIsClean<T>(s: seq<T>, t: seq<T>, r: seq<T>)
    requires t != [] && Apart(t, r)
    ensures !Contains(Replace(s, t, r), t)
    decreases |s|
  {
    FirstMeans(s, t);
    var f := First(s, t);
    if f.None? {
      ReplaceNone(s, t, r);
    } else {
      var p := f.value;
      ReplaceFirst(s, t, r, p);
      var rest := Replace(s[p + |t|..], t, r);
      ApartIsClean(s[p + |t|..], t, r);
      FirstReplacedIsClean(s, t, r, p, rest);
      Regroup(s[..p], r, rest);
    }
  }

  lemma FirstReplacedIsClean<T>(s: seq<T>, t: seq<T>, r: seq<T>, p: nat, rest: seq<T>)
    requires t != [] && First(s, t) == Some(p) && Apart(t, r) && !Contains(rest, t)
    ensures !Contains(s[..p] + (r + rest), t)
  {
    if Contains(s[..p] + (r + rest), t) {
      var q :| 0 <= q <= |s[..p] + (r + rest)| && OccursAt(s[..p] + (r + rest), t, q);
      OccurrenceBreaksApart(s, t, r, p, rest, q);
    }
  }

  // ---------- and otherwise some input keeps the target ----------

  lemma ShortIsClean<T>(s: seq<T>, t: seq<T>)
    requires |s| < |t|
    ensures First(s, t).None?
  {
  }

  // Replacing in head + target + tail, when the target occurs nowhere before.
  lemma ReplaceOnce<T>(head: seq<T>, t: seq<T>, tail: seq<T>, r: seq<T>)
    requires t != [] && IsFirst(head + t + tail, t, |head|) && |tail| < |t|
    ensures Replace(head + t + tail, t, r) == head + r + tail
  {
    var s := head + t + tail;
    var p := |head|;
    OnlyFirst(s, t, p);
    ReplaceFirst(s, t, r, p);
    assert s[..p] == head && s[p + |t|..] == tail;
    ShortIsClean(tail, t);
    ReplaceNone(tail, t, r);
  }

  lemma OnlyFirst<T>(s: seq<T>, t: seq<T>, p: nat)
    requires IsFirst(s, t, p)
    ensures First(s, t) == Some(p)
  {
    FirstMeans(s, t);
    assert p <= |s|;
  }

  // Of a target repeated at two overlapping places, the elements agree at the distance between them.
  lemma Period<T>(s: seq<T>, t: seq<T>, p: nat, q: nat, j: nat)
    requires OccursAt(s, t, p) && OccursAt(s, t, q) && p <= q && q - p + j < |t|
    ensures t[j] == t[q - p + j]
  {
    OccurrenceElements(s, t, q);
    OccurrenceElements(s, t, p);
    assert t[j] == s[q + j];
    assert t[q - p + j] == s[p + (q - p + j)];
  }

  // The replacement occurs first at `a` in the target: no earlier target in its own first `a` elements
  // followed by the target.
  lemma InnerIsFirst<T>(t: seq<T>, r: seq<T>, a: nat)
    requires r != [] && IsFirst(t, r, a)
    ensures IsFirst(t[..a] + t + t[a + |r|..], t, a)
  {
    var s := t[..a] + t + t[a + |r|..];
    ElementsOccur(s, t, a);
    forall p | 0 <= p < a ensures !OccursAt(s, t, p) {
      if OccursAt(s, t, p) {
        EarlierInner(s, t, r, p, a);
      }
    }
  }

  lemma EarlierInner<T>(s: seq<T>, t: seq<T>, r: seq<T>, p: nat, a: nat)
    requires OccursAt(s, t, p) && OccursAt(s, t, a) && p <= a && OccursAt(t, r, a)
    ensures OccursAt(t, r, p)
  {
    OccurrenceElements(t, r, a);
    forall j | 0 <= j < |r| ensures r[j] == t[p + j] {
      Period(s, t, p, a, p + j);
      assert r[j] == t[a + j] && a - p + (p + j) == a + j;
    }
    ElementsOccur(t, r, p);
  }

  lemma KeepsWhole<T>(t: seq<T>, r: seq<T>) returns (s: seq<T>)
    requires t != [] && r != [] && (Contains(r, t) || Contains(t, r))
    ensures Contains(Replace(s, t, r), t)
    ensures forall e :: e in s ==> e in t
  {
    if Contains(r, t) {
      s := t;
      assert t + [] == t && r + [] == r;
      ReplaceLeading(t, [], r);
    } else {
      s := KeepsInner(t, r);
    }
  }

  lemma KeepsInner<T>(t: seq<T>, r: seq<T>) returns (s: seq<T>)
    requires t != [] && r != [] && Contains(t, r)
    ensures Contains(Replace(s, t, r), t)
    ensures forall e :: e in s ==> e in t
  {
    FirstMeans(t, r);
    var a := First(t, r).value;
    s := t[..a] + t + t[a + |r|..];
    InnerIsFirst(t, r, a);
    ReplaceOnce(t[..a], t, t[a + |r|..], r);
    CutAt(t, r, a);
    ElementsOccur(t, t, 0);
  }

  lemma HeadAndRest<T>(t: seq<T>, r: seq<T>, k: nat)
    requires k <= |t| && EndsWithHead(r, t, k)
    ensures OccursAt(r + t[k..], t, |r| - k)
  {
    var p := |r| - k;
    forall j | 0 <= j < |t| ensures t[j] == (r + t[k..])[p + j] {
      if j < k {
        assert r[p..][j] == t[..k][j];
      } else {
        assert (r + t[k..])[p + j] == t[k..][j - k];
      }
    }
    ElementsOccur(r + t[k..], t, p);
  }

  lemma HeadAndTail<T>(t: seq<T>, r: seq<T>, k: nat)
    requires k <= |t| && BeginsWithTail(r, t, k)
    ensures OccursAt(t[..k] + r, t, 0)
  {
    forall j | 0 <= j < |t| ensures t[j] == (t[..k] + r)[0 + j] {
      if k <= j {
        assert t[k..][j - k] == r[j - k];
      }
    }
    ElementsOccur(t[..k] + r, t, 0);
  }

  lemma ReplaceLeading<T>(t: seq<T>, tail: seq<T>, r: seq<T>)
    requires t != [] && |tail| < |t|
    ensures Replace(t + tail, t, r) == r + tail
  {
    assert [] + t + tail == t + tail && [] + r + tail == r + tail;
    ElementsOccur(t + tail, t, 0);
    ReplaceOnce([], t, tail, r);
  }

  lemma ReplaceTrailing<T>(head: seq<T>, t: seq<T>, r: seq<T>)
    requires t != [] && IsFirst(head + t, t, |head|)
    ensures Replace(head + t, t, r) == head + r
  {
    assert head + t + [] == head + t && head + r + [] == head + r;
    ReplaceOnce(head, t, [], r);
  }

  lemma KeepsHead<T>(t: seq<T>, r: seq<T>, k: nat) returns (s: seq<T>)
    requires 0 < k < |t| && EndsWithHead(r, t, k)
    ensures Contains(Replace(s, t, r), t)
    ensures forall e :: e in s ==> e in t
  {
    s := t + t[k..];
    ReplaceLeading(t, t[k..], r);
    HeadAndRest(t, r, k);
  }

  lemma KeepsTail<T>(t: seq<T>, r: seq<T>, k: nat) returns (s: seq<T>)
    requires 0 < k < |t| && BeginsWithTail(r, t, k) && IsFirst(t[..k] + t, t, k)
    ensures Contains(Replace(s, t, r), t)
    ensures forall e :: e in s ==> e in t
  {
    s := t[..k] + t;
    ReplaceTrailing(t[..k], t, r);
    HeadAndTail(t, r, k);
  }

  lemma NotApartKeeps<T>(t: seq<T>, r: seq<T>) returns (s: seq<T>)
    requires t != [] && r != [] && !Apart(t, r)
    ensures Contains(Replace(s, t, r), t)
    ensures forall e :: e in s ==> e in t
  {
    if Contains(r, t) || Contains(t, r) {
      s := KeepsWhole(t, r);
    } else if k :| 0 < k < |t| && EndsWithHead(r, t, k) {
      s := KeepsHead(t, r, k);
    } else {
      var k :| 0 < k < |t| && BeginsWithTail(r, t, k) && IsFirst(t[..k] + t, t, k);
      s := KeepsTail(t, r, k);
    }
  }

  // Replacement removes the target from every text exactly when target and replacement are apart.
  lemma ReplaceCleansIff<T>(t: seq<T>, r: seq<T>)
    requires t != [] && r != []
    ensures (forall s :: !Contains(Replace(s, t, r), t)) <==> Apart(t, r)
  {
    if Apart(t, r) {
      forall s: seq<T> ensures !Contains(Replace(s, t, r), t) {
        ApartIsClean(s, t, r);
      }
    } else {
      var s := NotApartKeeps(t, r);
    }
  }
}
