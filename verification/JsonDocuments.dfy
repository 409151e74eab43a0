// JSON files as the runtime writes them, compact lines or one indented value, and when a search of the
// written text for a name finds every string that holds it.
module JsonDocuments {
  import opened Sequences
  import opened Substring
  import opened Wrappers
  import opened JsText
  import opened CanonicalJson

  // ---------- printing ----------

  // `JSON.stringify` with a gap and the indentation reached so far; members in insertion order.
  function Render(v: Json, gap: string, indent: string): string
    decreases v, 1
  {
    match v
    case Null => "null"
    case Bool(b) => if b then "true" else "false"
    case Number(n) => Decimal(n)
    case Text(s) => Quote(s)
    case Array(items) =>
      if items == [] then "[]"
      else "[" + Enclosed(RenderItems(v, items, gap, indent + gap), gap, indent) + "]"
    case Object(members) =>
      if members == [] then "{}"
      else "{" + Enclosed(RenderMembers(v, members, gap, indent + gap), gap, indent) + "}"
  }

  // The parts of an array or object: on one line, or each on a line of its own.
  function Enclosed(parts: seq<string>, gap: string, indent: string): string
    requires parts != []
  {
    if gap == "" then Join(parts, ",")
    else "\n" + indent + gap + Join(parts, ",\n" + indent + gap) + "\n" + indent
  }

  function RenderItems(whole: Json, items: seq<Json>, gap: string, indent: string): (parts: seq<string>)
    requires Inside(whole, items)
    ensures |parts| == |items|
    decreases whole, 0, |items|
  {
    if items == [] then [] else [Render(items[0], gap, indent)] + RenderItems(whole, items[1..], gap, indent)
  }

  function RenderMembers(whole: Json, members: seq<Member>, gap: string, indent: string): (parts: seq<string>)
    requires MembersInside(whole, members)
    ensures |parts| == |members|
    decreases whole, 0, |members|
  {
    if members == [] then []
    else
      var value := Render(members[0].value, gap, indent);
      [Named(members[0].key, value, gap)] + RenderMembers(whole, members[1..], gap, indent)
  }

  function Named(key: string, value: string, gap: string): string {
    Quote(key) + (if gap == "" then ":" else ": ") + value
  }

  function Compact(v: Json): string {
    Render(v, "", "")
  }

  // A `.json` file.
  function JsonFile(v: Json): string {
    Render(v, "  ", "") + "\n"
  }

  function CompactAll(vs: seq<Json>): (lines: seq<string>)
    ensures |lines| == |vs|
  {
    if vs == [] then [] else [Compact(vs[0])] + CompactAll(vs[1..])
  }

  // A `.jsonl` file, and the text inside a compressed frame.
  function JsonLines(vs: seq<Json>): string {
    if vs == [] then "" else Join(CompactAll(vs), "\n") + "\n"
  }

  // ---------- strings of a value ----------

  // The texts and keys of a value.
  predicate IsStringOf(v: Json, s: string)
    decreases v, 1
  {
    match v
    case Text(text) => s == text
    case Array(items) => exists i :: 0 <= i < |items| && IsStringOf(items[i], s)
    case Object(members) =>
      exists i :: 0 <= i < |members| && (members[i].key == s || IsStringOf(members[i].value, s))
    case _ => false
  }

  // Some string of some value holds the name.
  ghost predicate Holds(vs: seq<Json>, name: string) {
    exists i, s :: 0 <= i < |vs| && IsStringOf(vs[i], s) && Contains(s, name)
  }

  // ---------- strings are found in the printed text ----------

  lemma {:induction false} PartOfJoin(parts: seq<string>, r: string, i: nat)
    requires i < |parts|
    ensures Contains(Join(parts, r), parts[i])
  {
    WholeContained(parts[0]);
    if |parts| > 1 {
      if i == 0 {
        LeftContained(parts[0], r, parts[0]);
        LeftContained(parts[0] + r, Join(parts[1..], r), parts[0]);
      } else {
        PartOfJoin(parts[1..], r, i - 1);
        RightContained(parts[0] + r, Join(parts[1..], r), parts[i]);
      }
    }
  }

  lemma {:induction false} EnclosedHolds(
    parts: seq<string>, gap: string, indent: string, i: nat, open: string, close: string)
    requires i < |parts|
    ensures Contains(open + Enclosed(parts, gap, indent) + close, parts[i])
  {
    if gap == "" {
      PartOfJoin(parts, ",", i);
    } else {
      var before, sep := "\n" + indent + gap, ",\n" + indent + gap;
      PartOfJoin(parts, sep, i);
      RightContained(before, Join(parts, sep), parts[i]);
      LeftContained(before + Join(parts, sep), "\n", parts[i]);
      LeftContained(before + Join(parts, sep) + "\n", indent, parts[i]);
    }
    RightContained(open, Enclosed(parts, gap, indent), parts[i]);
    LeftContained(open + Enclosed(parts, gap, indent), close, parts[i]);
  }

  lemma {:induction false} RenderedItem(whole: Json, items: seq<Json>, gap: string, indent: string, i: nat)
    requires Inside(whole, items) && i < |items|
    ensures RenderItems(whole, items, gap, indent)[i] == Render(items[i], gap, indent)
    decreases i
  {
    if i > 0 {
      RenderedItem(whole, items[1..], gap, indent, i - 1);
    }
  }

  lemma {:induction false} RenderedMember(whole: Json, members: seq<Member>, gap: string, indent: string, i: nat)
    requires MembersInside(whole, members) && i < |members|
    ensures RenderMembers(whole, members, gap, indent)[i]
         == Named(members[i].key, Render(members[i].value, gap, indent), gap)
    decreases i
  {
    if i > 0 {
      var rest := members[1..];
      RenderedMember(whole, rest, gap, indent, i - 1);
      RestOfMembers(whole, members, gap, indent, i);
      assert rest[i - 1] == members[i];
    }
  }

  lemma {:induction false} RestOfMembers(whole: Json, members: seq<Member>, gap: string, indent: string, i: nat)
    requires MembersInside(whole, members) && 0 < i < |members|
    ensures RenderMembers(whole, members, gap, indent)[i] == RenderMembers(whole, members[1..], gap, indent)[i - 1]
  {
  }

  // Every string stands in the text in its escaped form.
  lemma {:induction false} StringIsPrinted(v: Json, s: string, gap: string, indent: string)
    requires IsStringOf(v, s)
    ensures Contains(Render(v, gap, indent), Escape(s))
    decreases v
  {
    match v
    case Text(text) => QuoteHolds(s);
    case Array(items) =>
      var i :| 0 <= i < |items| && IsStringOf(items[i], s);
      var parts := RenderItems(v, items, gap, indent + gap);
      StringIsPrinted(items[i], s, gap, indent + gap);
      RenderedItem(v, items, gap, indent + gap, i);
      EnclosedHolds(parts, gap, indent, i, "[", "]");
      ContainsTransitive(Render(v, gap, indent), parts[i], Escape(s));
    case Object(members) =>
      var i :| 0 <= i < |members| && (members[i].key == s || IsStringOf(members[i].value, s));
      var parts := RenderMembers(v, members, gap, indent + gap);
      MemberHolds(v, members, s, gap, indent + gap, i);
      EnclosedHolds(parts, gap, indent, i, "{", "}");
      ContainsTransitive(Render(v, gap, indent), parts[i], Escape(s));
    case _ =>
  }

  lemma {:induction false} MemberHolds(v: Json, members: seq<Member>, s: string, gap: string, indent: string, i: nat)
    requires v == Object(members) && i < |members| && (members[i].key == s || IsStringOf(members[i].value, s))
    ensures Contains(RenderMembers(v, members, gap, indent)[i], Escape(s))
    decreases v, 0
  {
    var key, value := Quote(members[i].key), Render(members[i].value, gap, indent);
    RenderedMember(v, members, gap, indent, i);
    if members[i].key == s {
      QuoteHolds(s);
    } else {
      StringIsPrinted(members[i].value, s, gap, indent);
    }
    EitherSideHolds(key, if gap == "" then ":" else ": ", value, Escape(s));
  }

  lemma {:induction false} EitherSideHolds(a: string, b: string, c: string, t: string)
    requires Contains(a, t) || Contains(c, t)
    ensures Contains(a + b + c, t)
  {
    if Contains(a, t) {
      LeftContained(a, b, t);
      LeftContained(a + b, c, t);
    } else {
      RightContained(a + b, c, t);
    }
  }

  lemma QuoteHolds(s: string)
    ensures Contains(Quote(s), Escape(s))
  {
    MiddleContained("\"", Escape(s), "\"");
    assert "\"" + Escape(s) + "\"" == Quote(s);
  }

  lemma {:induction false} EscapeConcat(a: string, b: string)
    ensures Escape(a + b) == Escape(a) + Escape(b)
  {
    if a == "" {
      assert a + b == b;
    } else {
      assert (a + b)[1..] == a[1..] + b;
      EscapeConcat(a[1..], b);
      Regroup(EscapeChar(a[0]), Escape(a[1..]), Escape(b));
    }
  }

  lemma EscapeKeepsParts(s: string, name: string)
    requires Contains(s, name)
    ensures Contains(Escape(s), Escape(name))
  {
    var i :| 0 <= i <= |s| && OccursAt(s, name, i);
    CutAt(s, name, i);
    EscapeConcat(s[..i] + name, s[i + |name|..]);
    EscapeConcat(s[..i], name);
    MiddleContained(Escape(s[..i]), Escape(name), Escape(s[i + |name|..]));
  }

  // ---------- which names are found ----------

  // Escaping the name leaves the name readable in the result.
  predicate Detectable(name: string) {
    Contains(Escape(name), name)
  }

  // No character of the name is escaped.
  predicate Plain(name: string) {
    forall i :: 0 <= i < |name| ==> EscapeChar(name[i]) == [name[i]]
  }

  lemma {:induction false} PlainIsUnchanged(name: string)
    requires Plain(name)
    ensures Escape(name) == name
  {
    if name != "" {
      PlainIsUnchanged(name[1..]);
      assert name == [name[0]] + name[1..];
    }
  }

  lemma PlainIsDetectable(name: string)
    requires Plain(name)
    ensures Detectable(name)
  {
    PlainIsUnchanged(name);
    WholeContained(name);
  }

  lemma StringIsFound(v: Json, s: string, name: string, gap: string, indent: string)
    requires IsStringOf(v, s) && Contains(s, name) && Detectable(name)
    ensures Contains(Render(v, gap, indent), name)
  {
    StringIsPrinted(v, s, gap, indent);
    EscapeKeepsParts(s, name);
    ContainsTransitive(Render(v, gap, indent), Escape(s), Escape(name));
    ContainsTransitive(Render(v, gap, indent), Escape(name), name);
  }

  lemma {:induction false} FoundInFile(v: Json, name: string)
    requires Detectable(name) && Holds([v], name)
    ensures Contains(JsonFile(v), name)
  {
    var i, s :| 0 <= i < |[v]| && IsStringOf([v][i], s) && Contains(s, name);
    StringIsFound(v, s, name, "  ", "");
    LeftContained(Render(v, "  ", ""), "\n", name);
  }

  lemma {:induction false} CompactAt(vs: seq<Json>, i: nat)
    requires i < |vs|
    ensures CompactAll(vs)[i] == Compact(vs[i])
  {
    if i > 0 {
      CompactAt(vs[1..], i - 1);
    }
  }

  lemma {:induction false} FoundInLines(vs: seq<Json>, name: string)
    requires Detectable(name) && Holds(vs, name)
    ensures Contains(JsonLines(vs), name)
  {
    var i, s :| 0 <= i < |vs| && IsStringOf(vs[i], s) && Contains(s, name);
    StringIsFound(vs[i], s, name, "", "");
    CompactAt(vs, i);
    PartOfJoin(CompactAll(vs), "\n", i);
    ContainsTransitive(Join(CompactAll(vs), "\n"), Compact(vs[i]), name);
    LeftContained(Join(CompactAll(vs), "\n"), "\n", name);
  }

  // ---------- and which are not ----------

  function Repeat(c: char, n: nat): (r: string)
    ensures |r| == n && forall i :: 0 <= i < n ==> r[i] == c
  {
    seq(n, i => c)
  }

  // A letter that no escape holds and the name does not begin with.
  function Pad(name: string): (c: char)
    ensures c in "xy" && (name != "" ==> name[0] != c)
  {
    if name != "" && name[0] == 'x' then 'y' else 'x'
  }

  lemma {:induction false} EscapeRepeat(c: char, n: nat)
    requires c in "xy"
    ensures Escape(Repeat(c, n)) == Repeat(c, n)
    decreases n
  {
    var r := Repeat(c, n);
    if n > 0 {
      assert r[1..] == Repeat(c, n - 1);
      EscapeRepeat(c, n - 1);
      assert EscapeChar(c) == [c];
      assert r == [c] + r[1..];
    }
  }

  // Padding keeps the quotes around the text away from the name.
  function Padded(name: string): string {
    Repeat(Pad(name), |name|) + name + Repeat(Pad(name), |name|)
  }

  function PaddedPrint(name: string): string {
    var pad := Repeat(Pad(name), |name|);
    "\"" + pad + Escape(name) + (pad + "\"\n")
  }

  lemma {:induction false} PaddedPrints(name: string)
    ensures JsonLines([Text(Padded(name))]) == PaddedPrint(name)
  {
    var pad := Repeat(Pad(name), |name|);
    EscapeRepeat(Pad(name), |name|);
    EscapeConcat(pad + name, pad);
    EscapeConcat(pad, name);
    OneLineOf(Text(Padded(name)));
    Rearranged(pad, Escape(name));
  }

  lemma {:induction false} OneLineOf(v: Json)
    ensures JsonLines([v]) == Compact(v) + "\n"
  {
    assert [v][1..] == [];
    assert CompactAll([v]) == [Compact(v)];
  }

  lemma {:induction false} Rearranged(pad: string, e: string)
    ensures "\"" + (pad + e + pad + "\"") + "\n" == "\"" + pad + e + (pad + "\"\n")
  {
  }

  lemma {:induction false} EscapeOne(c: char)
    ensures Escape([c]) == EscapeChar(c)
  {
    assert [c][1..] == "" && Escape("") == "";
  }

  lemma {:induction false} LastOther(name: string, c: char) returns (e: nat)
    requires name != "" && name[0] != c
    ensures e < |name| && name[e] != c && forall i :: e < i < |name| ==> name[i] == c
  {
    if name[|name| - 1] != c {
      e := |name| - 1;
    } else {
      var front := name[..|name| - 1];
      e := LastOther(front, c);
    }
  }

  // A print of `e` between pads of m letters each, by its positions.
  ghost predicate IsPadded(w: string, e: string, c: char, m: nat) {
    var n := |e|;
    && |w| == 3 + m + n + m && w[0] == '\"'
    && (forall z :: 0 < z < 1 + m ==> w[z] == c)
    && (forall z :: 1 + m <= z < 1 + m + n ==> w[z] == e[z - 1 - m])
    && (forall z :: 1 + m + n <= z < 1 + m + n + m ==> w[z] == c)
    && w[1 + m + n + m] == '\"' && w[2 + m + n + m] == '\n'
  }

  lemma {:induction false} PrintIsPadded(name: string)
    ensures IsPadded(PaddedPrint(name), Escape(name), Pad(name), |name|)
  {
    var pad, e := Repeat(Pad(name), |name|), Escape(name);
    JoinedIsPadded("\"" + pad + e, pad + "\"\n", pad, e, Pad(name));
  }

  lemma {:induction false} JoinedIsPadded(left: string, right: string, pad: string, e: string, c: char)
    requires left == "\"" + pad + e && right == pad + "\"\n"
    requires forall i :: 0 <= i < |pad| ==> pad[i] == c
    ensures IsPadded(left + right, e, c, |pad|)
  {
    forall z | 0 <= z < |left| ensures (left + right)[z] == left[z] {
    }
    forall z | |left| <= z < |left + right| ensures (left + right)[z] == right[z - |left|] {
    }
  }

  predicate Trimmed(name: string) {
    name != "" && !IsSpace(name[0]) && !IsSpace(name[|name| - 1])
  }

  // The escaped form ends in the pad exactly as far as the name does.
  lemma {:induction false} EscapedTail(name: string, h: nat, c: char)
    requires c in "xy" && h <= |name| && forall i :: h <= i < |name| ==> name[i] == c
    ensures |name| - h <= |Escape(name)|
    ensures forall z :: |Escape(name)| - (|name| - h) <= z < |Escape(name)| ==> Escape(name)[z] == c
  {
    var tail := Repeat(c, |name| - h);
    assert name == name[..h] + tail;
    EscapeConcat(name[..h], tail);
    EscapeRepeat(c, |name| - h);
  }

  // Within the escaped form.
  lemma {:induction false} InsideEscaped(w: string, e: string, c: char, name: string, q: nat)
    requires IsPadded(w, e, c, |name|) && OccursAt(w, name, q)
    requires 1 + |name| <= q && q + |name| <= 1 + |name| + |e|
    ensures Contains(e, name)
  {
    var p := q - 1 - |name|;
    OccurrenceElements(w, name, q);
    forall j | 0 <= j < |name| ensures name[j] == e[p + j] {
      assert name[j] == w[q + j];
    }
    ElementsOccur(e, name, p);
  }

  // A quote in front of nothing but padding.
  lemma {:induction false} QuoteThenPad(w: string, name: string)
    requires name != "" && IsPadded(w, Escape(name), Pad(name), |name|) && OccursAt(w, name, 0)
    ensures Detectable(name)
  {
    OccurrenceElements(w, name, 0);
    var c, m := Pad(name), |name|;
    var rest := Repeat(c, m - 1);
    assert name[0] == w[0 + 0];
    forall j | 1 <= j < m ensures name[j] == c {
      assert name[j] == w[0 + j];
    }
    assert name == ['\"'] + rest;
    EscapedQuote(rest, c, m - 1);
    WholeContained(name);
    RightContained(['\\'], name, name);
  }

  lemma {:induction false} EscapedQuote(rest: string, c: char, n: nat)
    requires c in "xy" && rest == Repeat(c, n)
    ensures Escape(['\"'] + rest) == ['\\'] + (['\"'] + rest)
  {
    EscapeConcat(['\"'], rest);
    EscapeRepeat(c, n);
    EscapeOne('\"');
  }

  lemma {:induction false} QuoteAlone()
    ensures Detectable(['\"'])
  {
    EscapeOne('\"');
    assert Escape(['\"']) == ['\\'] + ['\"'];
    WholeContained(['\"']);
    RightContained(['\\'], ['\"'], ['\"']);
  }

  // An occurrence does not reach from the escaped form into the padding: the last character of the name
  // that is no padding would stand in padding.
  lemma {:induction false} StaysInside(w: string, name: string, q: nat)
    requires name != "" && IsPadded(w, Escape(name), Pad(name), |name|) && OccursAt(w, name, q)
    requires 1 + |name| <= q < 1 + |name| + |Escape(name)|
    ensures q + |name| <= 1 + |name| + |Escape(name)|
  {
    var m, n, c := |name|, |Escape(name)|, Pad(name);
    var e := LastOther(name, c);
    ElementOf(w, name, q, e);
    if q + m > 1 + m + n {
      PaddingAt(w, name, e + 1, q + e);
    }
  }

  lemma {:induction false} PaddingAt(w: string, name: string, h: nat, z: nat)
    requires IsPadded(w, Escape(name), Pad(name), |name|)
    requires h <= |name| && forall i :: h <= i < |name| ==> name[i] == Pad(name)
    requires |Escape(name)| + 1 + h <= z < 1 + |name| + |Escape(name)| + |name|
    ensures w[z] == Pad(name)
  {
    EscapedTail(name, h, Pad(name));
  }

  // The name would have to lie within its own escaped form.
  lemma {:induction false} OnlyInside(w: string, name: string, q: nat)
    requires Trimmed(name) && IsPadded(w, Escape(name), Pad(name), |name|) && OccursAt(w, name, q)
    ensures Detectable(name)
  {
    if q == 0 {
      QuoteThenPad(w, name);
    } else {
      NotInPadding(w, name, q);
      if q < 1 + |name| + |Escape(name)| {
        StaysInside(w, name, q);
        InsideEscaped(w, Escape(name), Pad(name), name, q);
      } else {
        QuoteAlone();
      }
    }
  }

  // The name begins with no padding and ends with no blank.
  lemma {:induction false} NotInPadding(w: string, name: string, q: nat)
    requires Trimmed(name) && IsPadded(w, Escape(name), Pad(name), |name|) && OccursAt(w, name, q) && q > 0
    ensures 1 + |name| <= q
    ensures q < 1 + |name| + |Escape(name)| || name == ['\"']
  {
    ElementOf(w, name, q, 0);
    ElementOf(w, name, q, |name| - 1);
    OccurrenceFits(w, name, q);
    NotInFrontPadding(w, Escape(name), Pad(name), |name|, q);
    if q >= 1 + |name| + |Escape(name)| {
      NotInBackPadding(w, Escape(name), Pad(name), |name|, q);
    }
  }

  lemma {:induction false} OccurrenceFits(w: string, name: string, q: nat)
    requires OccursAt(w, name, q)
    ensures q + |name| <= |w|
  {
    OccurrenceElements(w, name, q);
  }

  lemma {:induction false} NotInFrontPadding(w: string, e: string, c: char, m: nat, q: nat)
    requires IsPadded(w, e, c, m) && 0 < q < |w| && w[q] != c
    ensures 1 + m <= q
  {
  }

  // In the padding behind, only the closing quote fits, alone.
  lemma {:induction false} NotInBackPadding(w: string, e: string, c: char, m: nat, q: nat)
    requires IsPadded(w, e, c, m) && 0 < m && 1 + m + |e| <= q && q + m <= |w| && w[q] != c
    requires !IsSpace(w[q]) && !IsSpace(w[q + m - 1])
    ensures m == 1 && w[q] == '\"'
  {
    assert IsSpace('\n');
  }

  // A name that its escaped form does not show is missed: a text may hold it while the file does not.
  lemma UndetectedDocument(name: string) returns (v: Json)
    requires Trimmed(name) && !Detectable(name)
    ensures Holds([v], name) && !Contains(JsonLines([v]), name)
    ensures v == Text(Padded(name))
  {
    v := Text(Padded(name));
    var pad := Repeat(Pad(name), |name|);
    MiddleContained(pad, name, pad);
    assert IsStringOf([v][0], Padded(name));
    PaddedPrints(name);
    if Contains(JsonLines([v]), name) {
      var q :| 0 <= q <= |PaddedPrint(name)| && OccursAt(PaddedPrint(name), name, q);
      PrintIsPadded(name);
      OnlyInside(PaddedPrint(name), name, q);
    }
  }

  // A search of written lines finds every string that holds the name exactly when escaping leaves the
  // name readable; names without escaped characters are such.
  lemma DetectionIff(name: string)
    requires Trimmed(name)
    ensures Detectable(name) <==> forall vs :: Holds(vs, name) ==> Contains(JsonLines(vs), name)
  {
    if Detectable(name) {
      forall vs | Holds(vs, name) ensures Contains(JsonLines(vs), name) {
        FoundInLines(vs, name);
      }
    } else {
      var v := UndetectedDocument(name);
    }
  }

  // A quotation mark inside a name is enough.
  lemma {:induction false} QuotedNameIsMissed()
    ensures Trimmed("a\"b") && !Detectable("a\"b")
    ensures Holds([Text("a\"b")], "a\"b") && !Contains(JsonLines([Text("a\"b")]), "a\"b")
  {
    EscapedExample();
    MissedIn(Escape("a\"b"));
    PrintedExample();
    MissedIn(JsonLines([Text("a\"b")]));
    WholeContained("a\"b");
    assert IsStringOf([Text("a\"b")][0], "a\"b");
  }

  lemma {:induction false} PrintedExample()
    ensures JsonLines([Text("a\"b")]) == "\"a\\\"b\"\n"
  {
    EscapedExample();
    OneLineOf(Text("a\"b"));
  }

  lemma {:induction false} EscapedExample()
    ensures Escape("a\"b") == "a\\\"b"
  {
    EscapeConcat("a\"", "b");
    EscapeConcat("a", "\"");
    EscapeOne('a');
    EscapeOne('\"');
    EscapeOne('b');
    assert "a" + "\"" == "a\"" && "a\"" + "b" == "a\"b";
  }

  // Every `a` is followed by something other than a quotation mark.
  lemma {:induction false} MissedIn(text: string)
    requires forall i :: 0 <= i < |text| && text[i] == 'a' ==> i + 1 < |text| && text[i + 1] != '\"'
    ensures !Contains(text, "a\"b")
  {
    if Contains(text, "a\"b") {
      var i :| 0 <= i <= |text| && OccursAt(text, "a\"b", i);
      ElementOf(text, "a\"b", i, 0);
      ElementOf(text, "a\"b", i, 1);
    }
  }

  // ---------- reading written lines ----------

  type Parser = string -> Option<Json>

  function ParseEach(lines: seq<string>, parse: Parser): Option<seq<Json>> {
    if lines == [] then Some([])
    else
      var first := parse(lines[0]);
      var rest := ParseEach(lines[1..], parse);
      if first.None? || rest.None? then None else Some([first.value] + rest.value)
  }

  // `parseJsonLines`
  function ParseLines(text: string, parse: Parser): Option<seq<Json>> {
    var trimmed := Trim(text);
    if trimmed == "" then Some([]) else ParseEach(Lines(trimmed), parse)
  }

  // The lines of one frame: at least one, and each ends in a newline.
  function ParseFrame(text: string, parse: Parser): Option<seq<Json>> {
    if text == "" || text[|text| - 1] != '\n' then None else ParseEach(Lines(text[..|text| - 1]), parse)
  }

  // `JSON.parse` undoes `JSON.stringify`.
  ghost predicate Undoes(parse: Parser) {
    forall v :: WellFormed(v) ==> parse(Compact(v)) == Some(v) && parse(JsonFile(v)) == Some(v)
  }

  predicate OneLineText(line: string) {
    Trimmed(line) && '\n' !in line
  }

  lemma {:induction false} EscapedHasNoNewline(s: string)
    ensures '\n' !in Escape(s)
  {
    if s != "" {
      EscapedHasNoNewline(s[1..]);
      EscapedCharHasNoNewline(s[0]);
    }
  }

  lemma {:induction false} EscapedCharHasNoNewline(c: char)
    ensures '\n' !in EscapeChar(c)
  {
  }

  lemma {:induction false} NoNewlineJoined(parts: seq<string>)
    requires parts != [] && forall i :: 0 <= i < |parts| ==> '\n' !in parts[i]
    ensures '\n' !in Join(parts, ",")
  {
    if |parts| > 1 {
      NoNewlineJoined(parts[1..]);
    }
  }

  lemma {:induction false} DigitsFit(n: nat)
    ensures Digits(n) != "" && forall i :: 0 <= i < |Digits(n)| ==> IsDigit(Digits(n)[i])
  {
    if n >= 10 {
      DigitsFit(n / 10);
    }
  }

  lemma {:induction false} DecimalIsOneLine(n: int)
    ensures OneLineText(Decimal(n))
  {
    DigitsFit(if n < 0 then -n else n);
  }

  lemma {:induction false} QuoteIsOneLine(s: string)
    ensures OneLineText(Quote(s))
  {
    EscapedHasNoNewline(s);
  }

  lemma {:induction false} BracketsAreOneLine(open: char, inner: string, close: char)
    requires open in "[{" && close in "]}" && '\n' !in inner
    ensures OneLineText([open] + inner + [close])
  {
  }

  // A compact value is one line without blanks at its ends.
  lemma {:induction false} CompactIsOneLine(v: Json)
    ensures OneLineText(Compact(v))
    decreases v, 2
  {
    match v
    case Number(n) => DecimalIsOneLine(n);
    case Text(s) => QuoteIsOneLine(s);
    case Array(items) => ArrayIsOneLine(v, items);
    case Object(members) => ObjectIsOneLine(v, members);
    case _ =>
  }

  lemma {:induction false} ArrayIsOneLine(v: Json, items: seq<Json>)
    requires v == Array(items)
    ensures OneLineText(Compact(v))
    decreases v, 1
  {
    CompactArray(v, items);
    if items != [] {
      ItemsAreOneLine(v, items);
      var parts := RenderItems(v, items, "", "");
      NoNewlineJoined(parts);
      BracketsAreOneLine('[', Join(parts, ","), ']');
    }
  }

  lemma {:induction false} CompactArray(v: Json, items: seq<Json>)
    requires v == Array(items)
    ensures Compact(v) == if items == [] then "[]" else ['['] + Join(RenderItems(v, items, "", ""), ",") + [']']
  {
    assert "" + "" == "";
  }

  lemma {:induction false} ObjectIsOneLine(v: Json, members: seq<Member>)
    requires v == Object(members)
    ensures OneLineText(Compact(v))
    decreases v, 1
  {
    CompactObject(v, members);
    if members != [] {
      MembersAreOneLine(v, members);
      var parts := RenderMembers(v, members, "", "");
      NoNewlineJoined(parts);
      BracketsAreOneLine('{', Join(parts, ","), '}');
    }
  }

  lemma {:induction false} CompactObject(v: Json, members: seq<Member>)
    requires v == Object(members)
    ensures Compact(v) == if members == [] then "{}" else ['{'] + Join(RenderMembers(v, members, "", ""), ",") + ['}']
  {
    assert "" + "" == "";
  }

  lemma {:induction false} ItemsAreOneLine(whole: Json, items: seq<Json>)
    requires Inside(whole, items)
    ensures forall i :: 0 <= i < |items| ==> '\n' !in RenderItems(whole, items, "", "")[i]
    decreases whole, 0, |items|
  {
    if items != [] {
      CompactIsOneLine(items[0]);
      ItemsAreOneLine(whole, items[1..]);
    }
  }

  lemma {:induction false} MembersAreOneLine(whole: Json, members: seq<Member>)
    requires MembersInside(whole, members)
    ensures forall i :: 0 <= i < |members| ==> '\n' !in RenderMembers(whole, members, "", "")[i]
    decreases whole, 0, |members|
  {
    if members != [] {
      CompactIsOneLine(members[0].value);
      QuoteIsOneLine(members[0].key);
      MembersAreOneLine(whole, members[1..]);
    }
  }

  lemma {:induction false} LinesOfJoin(lines: seq<string>)
    requires lines != [] && forall i :: 0 <= i < |lines| ==> OneLineText(lines[i])
    ensures Lines(Join(lines, "\n")) == lines
    ensures Trimmed(Join(lines, "\n"))
  {
    if |lines| == 1 {
      OneLine(lines[0]);
    } else {
      LinesOfJoin(lines[1..]);
      LineThenRest(lines[0], Join(lines[1..], "\n"));
      assert lines == [lines[0]] + lines[1..];
      EndsOfConcat(lines[0] + "\n", Join(lines[1..], "\n"), lines[0]);
    }
  }

  lemma {:induction false} EndsOfConcat(a: string, b: string, first: string)
    requires Trimmed(first) && first <= a && Trimmed(b)
    ensures Trimmed(a + b)
  {
  }

  lemma {:induction false} TrimNewline(text: string)
    requires Trimmed(text)
    ensures Trim(text + "\n") == text
  {
    assert IsSpace('\n');
    assert (text + "\n")[0] == text[0];
    assert TrimStart(text + "\n") == text + "\n";
    assert (text + "\n")[..|text|] == text;
    assert TrimEnd(text) == text;
  }

  lemma {:induction false} ParseEachUndoes(vs: seq<Json>, parse: Parser)
    requires Undoes(parse) && forall i :: 0 <= i < |vs| ==> WellFormed(vs[i])
    ensures ParseEach(CompactAll(vs), parse) == Some(vs)
  {
    if vs != [] {
      CompactIsParsed(vs[0], parse);
      ParseEachUndoes(vs[1..], parse);
      ParseEachSplits(Compact(vs[0]), CompactAll(vs[1..]), parse);
      assert vs == [vs[0]] + vs[1..];
    }
  }

  lemma {:induction false} CompactIsParsed(v: Json, parse: Parser)
    requires Undoes(parse) && WellFormed(v)
    ensures parse(Compact(v)) == Some(v)
  {
  }

  lemma {:induction false} ParseEachSplits(line: string, lines: seq<string>, parse: Parser)
    requires parse(line).Some? && ParseEach(lines, parse).Some?
    ensures ParseEach([line] + lines, parse) == Some([parse(line).value] + ParseEach(lines, parse).value)
  {
    assert ([line] + lines)[1..] == lines;
  }

  lemma {:induction false} LinesAreApart(vs: seq<Json>)
    requires vs != []
    ensures Trimmed(Join(CompactAll(vs), "\n")) && Lines(Join(CompactAll(vs), "\n")) == CompactAll(vs)
  {
    var lines := CompactAll(vs);
    forall i | 0 <= i < |vs| ensures OneLineText(lines[i]) {
      CompactAt(vs, i);
      CompactIsOneLine(vs[i]);
    }
    LinesOfJoin(lines);
  }

  // Written lines are read back.
  lemma {:induction false} ParseLinesUndoes(vs: seq<Json>, parse: Parser)
    requires Undoes(parse) && forall i :: 0 <= i < |vs| ==> WellFormed(vs[i])
    ensures ParseLines(JsonLines(vs), parse) == Some(vs)
  {
    if vs != [] {
      LinesAreApart(vs);
      TrimNewline(Join(CompactAll(vs), "\n"));
      ParseEachUndoes(vs, parse);
    }
  }

  // So are the lines of a frame.
  lemma {:induction false} ParseFrameUndoes(vs: seq<Json>, parse: Parser)
    requires vs != [] && Undoes(parse) && forall i :: 0 <= i < |vs| ==> WellFormed(vs[i])
    ensures ParseFrame(JsonLines(vs), parse) == Some(vs)
  {
    LinesAreApart(vs);
    var text := JsonLines(vs);
    assert text[..|text| - 1] == Join(CompactAll(vs), "\n");
    ParseEachUndoes(vs, parse);
  }
}
