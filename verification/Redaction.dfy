// Redaction of one participant in JSON documents: every occurrence of the subject in a text becomes a
// tombstone, then the source root becomes the target root; shape, keys and other leaves stay.
module Redaction {
  import opened Sequences
  import opened Wrappers
  import opened Substring
  import opened CanonicalJson

  datatype Settings = Settings(subject: string, tombstone: string, source: string, target: string)

  predicate Usable(x: Settings) {
    x.subject != "" && x.source != ""
  }

  // What is checked before anything is copied, as far as clean texts depend on it: the subject is a
  // single name, and the target root is absolute and does not hold it. Any source root will do, the
  // marker that stands for it in immutable manifests included.
  predicate Accepted(x: Settings) {
    && Usable(x) && '/' !in x.subject && x.tombstone != "" && x.tombstone != x.subject
    && "/" <= x.target && !Contains(x.target, x.subject)
  }

  datatype Redacted<T> = Redacted(value: T, count: nat)

  function RedactText(s: string, x: Settings): Redacted<string>
    requires Usable(x)
  {
    var found := First(s, x.subject).Some?;
    var count := if found then |Split(s, x.subject)| - 1 else 0;
    var named := if found then Join(Split(s, x.subject), x.tombstone) else s;
    Redacted(if First(named, x.source).Some? then Join(Split(named, x.source), x.target) else named, count)
  }

  function RedactValue(v: Json, x: Settings): Redacted<Json>
    requires Usable(x)
    decreases v, 0
  {
    match v
    case Text(s) =>
      var r := RedactText(s, x);
      Redacted(Text(r.value), r.count)
    case Array(items) =>
      var r := RedactItems(v, items, x);
      Redacted(Array(r.value), r.count)
    case Object(members) =>
      var r := RedactMembers(v, members, x);
      Redacted(Object(r.value), r.count)
    case _ => Redacted(v, 0)
  }

  function RedactItems(whole: Json, items: seq<Json>, x: Settings): (r: Redacted<seq<Json>>)
    requires Usable(x) && Inside(whole, items)
    decreases whole, 0, |items|
  {
    if items == [] then Redacted([], 0)
    else
      var first, rest := RedactValue(items[0], x), RedactItems(whole, items[1..], x);
      Redacted([first.value] + rest.value, first.count + rest.count)
  }

  function RedactMembers(whole: Json, members: seq<Member>, x: Settings): (r: Redacted<seq<Member>>)
    requires Usable(x) && MembersInside(whole, members)
    decreases whole, 0, |members|
  {
    if members == [] then Redacted([], 0)
    else
      var first, rest := RedactValue(members[0].value, x), RedactMembers(whole, members[1..], x);
      Redacted([Member(members[0].key, first.value)] + rest.value, first.count + rest.count)
  }

  // ---------- shape and texts ----------

  // The value with every text emptied: its shape, keys and other leaves.
  function Shape(v: Json): Json {
    match v
    case Text(s) => Text("")
    case Array(items) => Array(seq(|items|, i requires 0 <= i < |items| => Shape(items[i])))
    case Object(members) =>
      Object(seq(|members|, i requires 0 <= i < |members| => Member(members[i].key, Shape(members[i].value))))
    case _ => v
  }

  // The texts of a value, from left to right.
  function Texts(v: Json): seq<string>
    decreases v, 0
  {
    match v
    case Text(s) => [s]
    case Array(items) => ItemTexts(v, items)
    case Object(members) => MemberTexts(v, members)
    case _ => []
  }

  function ItemTexts(whole: Json, items: seq<Json>): seq<string>
    requires Inside(whole, items)
    decreases whole, 0, |items|
  {
    if items == [] then [] else Texts(items[0]) + ItemTexts(whole, items[1..])
  }

  function MemberTexts(whole: Json, members: seq<Member>): seq<string>
    requires MembersInside(whole, members)
    decreases whole, 0, |members|
  {
    if members == [] then [] else Texts(members[0].value) + MemberTexts(whole, members[1..])
  }

  // Shape and texts together determine a value.
  lemma {:induction false} ShapeAndTextsDetermine(a: Json, b: Json)
    requires Shape(a) == Shape(b) && Texts(a) == Texts(b)
    ensures a == b
    decreases a, 1
  {
    match a
    case Array(items) =>
      ChildShapes(a, b);
      ItemsDetermine(a, items, b, b.items);
    case Object(members) =>
      ChildShapes(a, b);
      MembersDetermine(a, members, b, b.members);
    case _ =>
  }

  // Values of the same shape have equally many texts.
  lemma {:induction false} ShapeFixesNumber(a: Json, b: Json)
    requires Shape(a) == Shape(b)
    ensures |Texts(a)| == |Texts(b)|
    decreases a, 1
  {
    match a
    case Array(items) =>
      ChildShapes(a, b);
      ItemsFixNumber(a, items, b, b.items);
    case Object(members) =>
      ChildShapes(a, b);
      MembersFixNumber(a, members, b, b.members);
    case _ =>
  }

  predicate SameShapes(items: seq<Json>, others: seq<Json>) {
    |items| == |others| && forall i :: 0 <= i < |items| ==> Shape(items[i]) == Shape(others[i])
  }

  predicate SameMembers(members: seq<Member>, others: seq<Member>) {
    |members| == |others|
    && forall i :: 0 <= i < |members| ==>
      members[i].key == others[i].key && Shape(members[i].value) == Shape(others[i].value)
  }

  lemma ChildShapes(a: Json, b: Json)
    requires Shape(a) == Shape(b)
    ensures a.Array? ==> b.Array? && SameShapes(a.items, b.items)
    ensures a.Object? ==> b.Object? && SameMembers(a.members, b.members)
  {
    if a.Array? {
      forall i | 0 <= i < |a.items| ensures Shape(a.items[i]) == Shape(b.items[i]) {
        assert Shape(a).items[i] == Shape(b).items[i];
      }
    }
    if a.Object? {
      forall i | 0 <= i < |a.members|
        ensures a.members[i].key == b.members[i].key && Shape(a.members[i].value) == Shape(b.members[i].value)
      {
        assert Shape(a).members[i] == Shape(b).members[i];
      }
    }
  }

  lemma SameChildren(a: Json, b: Json)
    requires (a.Array? && b.Array? && SameShapes(a.items, b.items))
      || (a.Object? && b.Object? && SameMembers(a.members, b.members))
    ensures Shape(a) == Shape(b)
  {
  }

  lemma {:induction false} ItemsFixNumber(a: Json, items: seq<Json>, b: Json, others: seq<Json>)
    requires Inside(a, items) && Inside(b, others) && SameShapes(items, others)
    ensures |ItemTexts(a, items)| == |ItemTexts(b, others)|
    decreases a, 0, |items|
  {
    if items != [] {
      ShapeFixesNumber(items[0], others[0]);
      ItemsFixNumber(a, items[1..], b, others[1..]);
    }
  }

  lemma {:induction false} MembersFixNumber(a: Json, members: seq<Member>, b: Json, others: seq<Member>)
    requires MembersInside(a, members) && MembersInside(b, others) && SameMembers(members, others)
    ensures |MemberTexts(a, members)| == |MemberTexts(b, others)|
    decreases a, 0, |members|
  {
    if members != [] {
      ShapeFixesNumber(members[0].value, others[0].value);
      MembersFixNumber(a, members[1..], b, others[1..]);
    }
  }

  lemma {:induction false} ItemsDetermine(a: Json, items: seq<Json>, b: Json, others: seq<Json>)
    requires Inside(a, items) && Inside(b, others) && SameShapes(items, others)
    requires ItemTexts(a, items) == ItemTexts(b, others)
    ensures items == others
    decreases a, 0, |items|
  {
    if items != [] {
      ShapeFixesNumber(items[0], others[0]);
      SplitEqual(Texts(items[0]), ItemTexts(a, items[1..]), Texts(others[0]), ItemTexts(b, others[1..]));
      ShapeAndTextsDetermine(items[0], others[0]);
      ItemsDetermine(a, items[1..], b, others[1..]);
      assert items == [items[0]] + items[1..] && others == [others[0]] + others[1..];
    }
  }

  lemma {:induction false} MembersDetermine(a: Json, members: seq<Member>, b: Json, others: seq<Member>)
    requires MembersInside(a, members) && MembersInside(b, others) && SameMembers(members, others)
    requires MemberTexts(a, members) == MemberTexts(b, others)
    ensures members == others
    decreases a, 0, |members|
  {
    if members != [] {
      var x, y := members[0].value, others[0].value;
      ShapeFixesNumber(x, y);
      SplitEqual(Texts(x), MemberTexts(a, members[1..]), Texts(y), MemberTexts(b, others[1..]));
      ShapeAndTextsDetermine(x, y);
      MembersDetermine(a, members[1..], b, others[1..]);
      assert members == [members[0]] + members[1..] && others == [others[0]] + others[1..];
    }
  }

  // ---------- what redaction does to a value ----------

  function RedactEach(texts: seq<string>, x: Settings): seq<string>
    requires Usable(x)
  {
    if texts == [] then [] else [RedactText(texts[0], x).value] + RedactEach(texts[1..], x)
  }

  // Occurrences of the subject in all texts, taken from the left without overlap.
  function Occurrences(texts: seq<string>, subject: string): nat
    requires subject != ""
  {
    if texts == [] then 0 else Count(texts[0], subject) + Occurrences(texts[1..], subject)
  }

  lemma {:induction false} EachOfConcat(a: seq<string>, b: seq<string>, x: Settings)
    requires Usable(x)
    ensures RedactEach(a + b, x) == RedactEach(a, x) + RedactEach(b, x)
    ensures Occurrences(a + b, x.subject) == Occurrences(a, x.subject) + Occurrences(b, x.subject)
  {
    if a == [] {
      assert a + b == b;
    } else {
      assert (a + b)[1..] == a[1..] + b;
      EachOfConcat(a[1..], b, x);
    }
  }

  // Shape, keys and other leaves stay, every text is redacted, and the count is the number of
  // occurrences; together with ShapeAndTextsDetermine this fixes the result.
  ghost predicate RedactedFaithfully(v: Json, r: Redacted<Json>, x: Settings)
    requires Usable(x)
  {
    && Shape(r.value) == Shape(v) && Texts(r.value) == RedactEach(Texts(v), x)
    && r.count == Occurrences(Texts(v), x.subject)
  }

  lemma {:induction false} RedactValueIsFaithful(v: Json, x: Settings)
    requires Usable(x)
    ensures RedactedFaithfully(v, RedactValue(v, x), x)
    decreases v, 1
  {
    match v
    case Text(s) => OneText(s, x);
    case Array(items) => RedactArrayFaithful(v, items, x);
    case Object(members) => RedactObjectFaithful(v, members, x);
    case _ =>
  }

  lemma OneText(s: string, x: Settings)
    requires Usable(x)
    ensures RedactedFaithfully(Text(s), RedactValue(Text(s), x), x)
  {
    assert [s][1..] == [];
    RedactTextIs(s, x);
  }

  lemma RedactArrayFaithful(v: Json, items: seq<Json>, x: Settings)
    requires Usable(x) && v == Array(items)
    ensures RedactedFaithfully(v, RedactValue(v, x), x)
    decreases v, 0, |items| + 1
  {
    var r := RedactValue(v, x).value;
    RedactItemsFaithful(v, items, r, x);
    assert Inside(r, r.items);
    SameChildren(r, v);
  }

  lemma RedactObjectFaithful(v: Json, members: seq<Member>, x: Settings)
    requires Usable(x) && v == Object(members)
    ensures RedactedFaithfully(v, RedactValue(v, x), x)
    decreases v, 0, |members| + 1
  {
    var r := RedactValue(v, x).value;
    RedactMembersFaithful(v, members, r, x);
    assert MembersInside(r, r.members);
    SameChildren(r, v);
  }

  lemma {:induction false} RedactItemsFaithful(v: Json, items: seq<Json>, whole: Json, x: Settings)
    requires Usable(x) && Inside(v, items)
    ensures SameShapes(RedactItems(v, items, x).value, items)
    ensures RedactItems(v, items, x).count == Occurrences(ItemTexts(v, items), x.subject)
    ensures var r := RedactItems(v, items, x).value;
      Inside(whole, r) ==> ItemTexts(whole, r) == RedactEach(ItemTexts(v, items), x)
    decreases v, 0, |items|
  {
    if items != [] {
      var first, rest := RedactValue(items[0], x), RedactItems(v, items[1..], x);
      RedactValueIsFaithful(items[0], x);
      RedactItemsFaithful(v, items[1..], whole, x);
      EachOfConcat(Texts(items[0]), ItemTexts(v, items[1..]), x);
      ConsItems(first.value, items[0], rest.value, items[1..]);
      assert [items[0]] + items[1..] == items;
      if Inside(whole, [first.value] + rest.value) {
        TextsOfItems(whole, first.value, rest.value);
      }
    }
  }

  lemma ConsItems(a: Json, b: Json, x: seq<Json>, y: seq<Json>)
    requires Shape(a) == Shape(b) && SameShapes(x, y)
    ensures SameShapes([a] + x, [b] + y)
  {
  }

  lemma TextsOfItems(whole: Json, first: Json, rest: seq<Json>)
    requires Inside(whole, [first] + rest)
    ensures Inside(whole, rest) && ItemTexts(whole, [first] + rest) == Texts(first) + ItemTexts(whole, rest)
  {
    assert ([first] + rest)[1..] == rest;
    assert forall i :: 0 <= i < |rest| ==> rest[i] == ([first] + rest)[i + 1];
  }

  lemma {:induction false} RedactMembersFaithful(v: Json, members: seq<Member>, whole: Json, x: Settings)
    requires Usable(x) && MembersInside(v, members)
    ensures SameMembers(RedactMembers(v, members, x).value, members)
    ensures RedactMembers(v, members, x).count == Occurrences(MemberTexts(v, members), x.subject)
    ensures var r := RedactMembers(v, members, x).value;
      MembersInside(whole, r) ==> MemberTexts(whole, r) == RedactEach(MemberTexts(v, members), x)
    decreases v, 0, |members|
  {
    if members != [] {
      var first, rest := RedactValue(members[0].value, x), RedactMembers(v, members[1..], x);
      RedactValueIsFaithful(members[0].value, x);
      RedactMembersFaithful(v, members[1..], whole, x);
      EachOfConcat(Texts(members[0].value), MemberTexts(v, members[1..]), x);
      var head := Member(members[0].key, first.value);
      ConsMembers(head, members[0], rest.value, members[1..]);
      assert [members[0]] + members[1..] == members;
      if MembersInside(whole, [head] + rest.value) {
        TextsOfMembers(whole, head, rest.value);
      }
    }
  }

  lemma ConsMembers(a: Member, b: Member, x: seq<Member>, y: seq<Member>)
    requires a.key == b.key && Shape(a.value) == Shape(b.value) && SameMembers(x, y)
    ensures SameMembers([a] + x, [b] + y)
  {
  }

  lemma TextsOfMembers(whole: Json, first: Member, rest: seq<Member>)
    requires MembersInside(whole, [first] + rest)
    ensures MembersInside(whole, rest)
      && MemberTexts(whole, [first] + rest) == Texts(first.value) + MemberTexts(whole, rest)
  {
    assert ([first] + rest)[1..] == rest;
    assert forall i :: 0 <= i < |rest| ==> rest[i] == ([first] + rest)[i + 1];
  }

  // ---------- clean texts ----------

  lemma RedactTextIs(s: string, x: Settings)
    requires Usable(x)
    ensures RedactText(s, x) == Redacted(Replace(Replace(s, x.subject, x.tombstone), x.source, x.target),
      Count(s, x.subject))
  {
  }

  // The moved root can rebuild the subject only from a head of the subject at its end, followed by the
  // rest of the subject in the text; and only if the source root in its place does not.
  predicate RootRebuilds(x: Settings, k: nat)
    requires k <= |x.subject|
  {
    EndsWithHead(x.target, x.subject, k) && !Contains(x.source + x.subject[k..], x.subject)
  }

  predicate RootsApart(x: Settings) {
    forall k :: 0 < k < |x.subject| ==> !RootRebuilds(x, k)
  }

  lemma PrefixElement(h: string, w: string, p: nat)
    requires h <= w && p < |w|
    ensures p < |h| ==> h[p] == w[p]
  {
  }

  // A root does not occur where its first character does not.
  lemma {:induction false} NoRootInside(s: string, root: string)
    requires root != "" && root[0] !in s
    ensures First(s, root).None?
  {
    var f := First(s, root);
    if f.Some? {
      FirstMeans(s, root);
      ElementOf(s, root, f.value, 0);
    }
  }

  // A head without separators comes unchanged from the text.
  lemma HeadSurvives(h: string, s: string, source: string, target: string)
    requires source != "" && "/" <= target && '/' !in h
    requires h <= Replace(s, source, target)
    ensures h <= s
  {
    var f := First(s, source);
    if f.Some? {
      var p := f.value;
      ReplaceFirst(s, source, target, p);
      var w := Replace(s, source, target);
      assert w == s[..p] + target + Replace(s[p + |source|..], source, target);
      assert w[p] == target[0] == '/';
      PrefixElement(h, w, p);
      assert |h| <= p;
      assert w[..p] == s[..p];
      assert h == w[..|h|] == s[..p][..|h|];
    }
  }

  // A single name does not reach into a path.
  lemma NotAcrossSeparator(head: string, path: string, name: string, q: nat)
    requires '/' !in name && "/" <= path && OccursAt(head + path, name, q)
    ensures !(q < |head| < q + |name|)
  {
    if q < |head| < q + |name| {
      ElementOf(head + path, name, q, |head| - q);
    }
  }

  // An occurrence of the subject after moving the first root comes from one before it.
  lemma OccurrenceFromBefore(s: string, p: nat, rest: string, q: nat, x: Settings)
    requires Accepted(x) && RootsApart(x) && OccursAt(s, x.source, p)
    requires rest == Replace(s[p + |x.source|..], x.source, x.target)
    requires !Contains(rest, x.subject) && OccursAt(s[..p] + (x.target + rest), x.subject, q)
    ensures Contains(s, x.subject)
  {
    if q + |x.subject| <= p {
      WithinHead(s[..p], x.target + rest, x.subject, q);
      assert s[..p] == s[0..p];
      Shift(s, x.subject, 0, p, q);
    } else if q < p {
      NotAcrossSeparator(s[..p], x.target + rest, x.subject, q);
    } else {
      WithinTail(s[..p], x.target + rest, x.subject, q);
      OccurrenceFromRoot(s, p, rest, q - p, x);
    }
  }

  lemma OccurrenceFromRoot(s: string, p: nat, rest: string, o: nat, x: Settings)
    requires Accepted(x) && RootsApart(x) && OccursAt(s, x.source, p)
    requires rest == Replace(s[p + |x.source|..], x.source, x.target)
    requires !Contains(rest, x.subject) && OccursAt(x.target + rest, x.subject, o)
    ensures Contains(s, x.subject)
  {
    if |x.target| <= o {
      WithinTail(x.target, rest, x.subject, o);
      assert Contains(rest, x.subject);
    } else if o + |x.subject| <= |x.target| {
      WithinHead(x.target, rest, x.subject, o);
      assert Contains(x.target, x.subject);
    } else {
      Across(x.target, rest, x.subject, o);
      var k := |x.target| - o;
      assert EndsWithHead(x.target, x.subject, k);
      assert Contains(x.source + x.subject[k..], x.subject) by {
        assert !RootRebuilds(x, k);
      }
      HeadSurvives(x.subject[k..], s[p + |x.source|..], x.source, x.target);
      RootAndHeadInside(s, x.source, p, x.subject[k..], x.subject);
    }
  }

  lemma RootAndHeadInside(s: string, source: string, p: nat, h: string, subject: string)
    requires OccursAt(s, source, p) && h <= s[p + |source|..] && Contains(source + h, subject)
    ensures Contains(s, subject)
  {
    var to := p + |source| + |h|;
    CutAt(s, source, p);
    assert s[p..to] == source + h;
    var i :| 0 <= i <= |source + h| && OccursAt(source + h, subject, i);
    Shift(s, subject, p, to, i);
  }

  lemma PartIsClean(s: string, subject: string, from: nat)
    requires !Contains(s, subject) && from <= |s|
    ensures !Contains(s[from..], subject)
  {
    if Contains(s[from..], subject) {
      var i :| 0 <= i <= |s[from..]| && OccursAt(s[from..], subject, i);
      assert s[from..] == s[from..|s|];
      Shift(s, subject, from, |s|, i);
    }
  }

  lemma FirstRootIsClean(s: string, p: nat, rest: string, x: Settings)
    requires Accepted(x) && RootsApart(x) && OccursAt(s, x.source, p) && !Contains(s, x.subject)
    requires rest == Replace(s[p + |x.source|..], x.source, x.target) && !Contains(rest, x.subject)
    ensures !Contains(s[..p] + (x.target + rest), x.subject)
  {
    if Contains(s[..p] + (x.target + rest), x.subject) {
      var q :| 0 <= q <= |s[..p] + (x.target + rest)| && OccursAt(s[..p] + (x.target + rest), x.subject, q);
      OccurrenceFromBefore(s, p, rest, q, x);
    }
  }

  lemma {:induction false} MovedRootIsClean(s: string, x: Settings)
    requires Accepted(x) && RootsApart(x) && !Contains(s, x.subject)
    ensures !Contains(Replace(s, x.source, x.target), x.subject)
    decreases |s|
  {
    var f := First(s, x.source);
    if f.None? {
      ReplaceNone(s, x.source, x.target);
    } else {
      var p := f.value;
      var later := s[p + |x.source|..];
      var rest := Replace(later, x.source, x.target);
      ReplaceFirst(s, x.source, x.target, p);
      PartIsClean(s, x.subject, p + |x.source|);
      MovedRootIsClean(later, x);
      FirstMeans(s, x.source);
      FirstRootIsClean(s, p, rest, x);
      Regroup(s[..p], x.target, rest);
    }
  }

  // Redacted texts are free of the subject when the tombstone and the moved root cannot rebuild it.
  lemma RedactedTextIsClean(s: string, x: Settings)
    requires Accepted(x) && Apart(x.subject, x.tombstone) && RootsApart(x)
    ensures !Contains(RedactText(s, x).value, x.subject)
  {
    RedactTextIs(s, x);
    ApartIsClean(s, x.subject, x.tombstone);
    MovedRootIsClean(Replace(s, x.subject, x.tombstone), x);
  }

  // A text that exposes a rebuilding root: the source root followed by the rest of the subject.
  lemma RebuiltSubject(x: Settings, k: nat) returns (s: string)
    requires Accepted(x) && x.source[0] !in x.subject && 0 < k < |x.subject| && RootRebuilds(x, k)
    ensures Contains(RedactText(s, x).value, x.subject)
  {
    var h := x.subject[k..];
    s := x.source + h;
    RedactTextIs(s, x);
    FirstMeans(s, x.subject);
    ReplaceNone(s, x.subject, x.tombstone);
    ElementsOccur(s, x.source, 0);
    OnlyFirst(s, x.source, 0);
    ReplaceFirst(s, x.source, x.target, 0);
    assert s[..0] == "" && s[0 + |x.source|..] == h;
    NoRootInside(h, x.source);
    ReplaceNone(h, x.source, x.target);
    assert "" + x.target + h == x.target + h;
    HeadAndRest(x.subject, x.target, k);
  }

  // A root could begin in the text, whatever follows it.
  predicate RootBeginsIn(s: string, root: string) {
    exists k :: 0 <= k < |s| && (root <= s[k..] || s[k..] <= root)
  }

  lemma {:induction false} BeginsAt(s: string, rest: string, root: string, q: nat)
    requires q < |s| && OccursAt(s + rest, root, q)
    ensures RootBeginsIn(s, root)
  {
    if q + |root| <= |s| {
      WithinHead(s, rest, root, q);
      SliceOccurs(s, root, q);
      assert root <= s[q..];
    } else {
      Across(s, rest, root, q);
      assert s[q..] <= root;
    }
  }

  lemma {:induction false} InHead(head: string, rest: string, q: nat)
    requires q < |head + rest|
    ensures q < |head| ==> (head + rest)[q] in head
  {
  }

  // Replacement by a text in which the root cannot begin brings in no root.
  lemma {:induction false} NoRootAround(head: string, r: string, rest: string, root: string, q: nat)
    requires root != "" && root[0] !in head && !RootBeginsIn(r, root)
    requires OccursAt(head + (r + rest), root, q)
    ensures Contains(rest, root)
  {
    ElementOf(head + (r + rest), root, q, 0);
    InHead(head, r + rest, q);
    WithinTail(head, r + rest, root, q);
    if q - |head| < |r| {
      BeginsAt(r, rest, root, q - |head|);
    }
    WithinTail(r, rest, root, q - |head|);
  }

  lemma {:induction false} NoRootBroughtIn(s: string, t: string, r: string, root: string)
    requires t != "" && root != "" && root[0] !in s && !RootBeginsIn(r, root)
    ensures !Contains(Replace(s, t, r), root)
    decreases |s|
  {
    var f := First(s, t);
    if f.None? {
      ReplaceNone(s, t, r);
      NoRootInside(s, root);
      FirstMeans(s, root);
    } else {
      var p := f.value;
      var rest := s[p + |t|..];
      ReplaceFirst(s, t, r, p);
      assert forall c :: c in rest || c in s[..p] ==> c in s;
      NoRootBroughtIn(rest, t, r, root);
      Regroup(s[..p], r, Replace(rest, t, r));
      if Contains(s[..p] + (r + Replace(rest, t, r)), root) {
        var q :| 0 <= q <= |s[..p] + (r + Replace(rest, t, r))|
          && OccursAt(s[..p] + (r + Replace(rest, t, r)), root, q);
        NoRootAround(s[..p], r, Replace(rest, t, r), root, q);
      }
    }
  }

  // Where the source root can begin neither in the subject nor in the tombstone, the condition is exact.
  lemma RedactionCleansIff(x: Settings)
    requires Accepted(x) && x.source[0] !in x.subject && !RootBeginsIn(x.tombstone, x.source)
    ensures (forall s :: !Contains(RedactText(s, x).value, x.subject))
       <==> Apart(x.subject, x.tombstone) && RootsApart(x)
  {
    if Apart(x.subject, x.tombstone) && RootsApart(x) {
      forall s ensures !Contains(RedactText(s, x).value, x.subject) {
        RedactedTextIsClean(s, x);
      }
    } else if !Apart(x.subject, x.tombstone) {
      var s := KeptSubject(x);
    } else {
      var k :| 0 < k < |x.subject| && RootRebuilds(x, k);
      var s := RebuiltSubject(x, k);
    }
  }

  lemma {:induction false} KeptSubject(x: Settings) returns (s: string)
    requires Accepted(x) && x.source[0] !in x.subject && !RootBeginsIn(x.tombstone, x.source)
    requires !Apart(x.subject, x.tombstone)
    ensures Contains(RedactText(s, x).value, x.subject)
  {
    s := NotApartKeeps(x.subject, x.tombstone);
    RedactTextIs(s, x);
    NoRootBroughtIn(s, x.subject, x.tombstone, x.source);
    FirstMeans(Replace(s, x.subject, x.tombstone), x.source);
    ReplaceNone(Replace(s, x.subject, x.tombstone), x.source, x.target);
  }

  // Such a root passes all checks: here the target root ends in a head of the subject.
  lemma MovedRootExample() returns (s: string)
    ensures var x := Settings("ab", "z", "/s", "/a");
      Accepted(x) && RootRebuilds(x, 1) && Contains(RedactText(s, x).value, x.subject)
  {
    var x := Settings("ab", "z", "/s", "/a");
    var moved := x.source + x.subject[1..];
    assert moved == "/sb";
    forall i: nat ensures !OccursAt(moved, "ab", i) {
      if OccursAt(moved, "ab", i) {
        ElementOf(moved, "ab", i, 0);
      }
    }
    assert EndsWithHead("/a", "ab", 1);
    s := RebuiltSubject(x, 1);
  }

  // ---------- whole documents ----------

  function RedactAll(vs: seq<Json>, x: Settings): (rs: seq<Json>)
    requires Usable(x)
    ensures |rs| == |vs| && forall i :: 0 <= i < |vs| ==> rs[i] == RedactValue(vs[i], x).value
  {
    if vs == [] then [] else [RedactValue(vs[0], x).value] + RedactAll(vs[1..], x)
  }

  // A text with neither the subject nor the source root stays as it is.
  lemma {:induction false} NothingToRedact(s: string, x: Settings)
    requires Usable(x) && !Contains(s, x.subject) && !Contains(s, x.source)
    ensures RedactText(s, x) == Redacted(s, 0)
  {
    FirstMeans(s, x.subject);
    FirstMeans(s, x.source);
  }

  lemma {:induction false} NothingInTexts(texts: seq<string>, x: Settings)
    requires Usable(x)
    requires forall i :: 0 <= i < |texts| ==> !Contains(texts[i], x.subject) && !Contains(texts[i], x.source)
    ensures RedactEach(texts, x) == texts
  {
    if texts != [] {
      NothingToRedact(texts[0], x);
      NothingInTexts(texts[1..], x);
      assert texts == [texts[0]] + texts[1..];
    }
  }

  lemma {:induction false} CleanValueStays(v: Json, x: Settings)
    requires Usable(x)
    requires forall i :: 0 <= i < |Texts(v)| ==> !Contains(Texts(v)[i], x.subject) && !Contains(Texts(v)[i], x.source)
    ensures RedactValue(v, x).value == v
  {
    RedactValueIsFaithful(v, x);
    NothingInTexts(Texts(v), x);
    ShapeAndTextsDetermine(RedactValue(v, x).value, v);
  }
}
