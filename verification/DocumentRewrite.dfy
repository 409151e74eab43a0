// How the documents of the offline copy are rewritten: JSON files and lines are parsed, redacted and
// written again unless they need no change, and compressed frames are rewritten frame by frame.
module DocumentRewrite {
  import opened Wrappers
  import opened Paths
  import opened Bytes
  import opened Substring
  import opened JsText
  import opened Utf8
  import opened CanonicalJson
  import opened JsonDocuments
  import opened Redaction
  import opened DeflateFrames

  // UTF-8 decoding, `JSON.parse`, and compression, which fails on input that does not fit a frame.
  datatype Codec = Codec(
    decode: ByteString -> string,
    parse: Parser,
    inflate: Inflate,
    deflate: ByteString -> Option<ByteString>)

  ghost predicate Lawful(codec: Codec) {
    && (forall s :: codec.decode(Encode(s)) == s)
    && Undoes(codec.parse)
    && (forall b :: codec.deflate(b).Some? ==>
         var frame := codec.deflate(b).value;
         0 < |frame| < Power256(HEADER) && codec.inflate(frame) == Some(b))
  }

  const MANIFESTS := "/operations/resolved-run-manifests/"
  const MARKER_ROOT := "\0immutable-run-manifest-root"

  // Run manifests are immutable but for the subject.
  predicate IsManifest(root: string, path: string) {
    root + MANIFESTS <= path
  }

  function SettingsFor(x: Settings, manifest: bool): Settings {
    if manifest then x.(source := MARKER_ROOT) else x
  }

  predicate IsJson(path: string) {
    HasExtension(path, ".json") || HasExtension(path, ".jsonl")
  }

  function ReadDocuments(path: string, text: string, parse: Parser): Option<seq<Json>> {
    if HasExtension(path, ".jsonl") then ParseLines(text, parse)
    else if parse(text).Some? then Some([parse(text).value])
    else None
  }

  // What the file at a path holds for these values.
  predicate Writable(path: string, vs: seq<Json>) {
    HasExtension(path, ".jsonl") || |vs| == 1
  }

  function WriteDocuments(path: string, vs: seq<Json>): string
    requires Writable(path, vs)
  {
    if HasExtension(path, ".jsonl") then JsonLines(vs) else JsonFile(vs[0])
  }

  // The file is left alone when a plain search of its text finds nothing to replace.
  predicate Skipped(text: string, x: Settings, manifest: bool) {
    !Contains(text, x.subject) && (manifest || !Contains(text, x.source))
  }

  // The rewriting of a `.json` or `.jsonl` file; it fails on text that does not parse.
  function RewriteText(root: string, path: string, content: ByteString, x: Settings, codec: Codec): Option<ByteString>
    requires Usable(x)
  {
    var text, manifest := codec.decode(content), IsManifest(root, path);
    if Skipped(text, x, manifest) then Some(content)
    else
      var values := ReadDocuments(path, text, codec.parse);
      if values.None? then None
      else Some(Encode(WriteDocuments(path, RedactAll(values.value, SettingsFor(x, manifest)))))
  }

  function RewriteFrame(frame: ByteString, x: Settings, codec: Codec): Option<ByteString>
    requires Usable(x)
  {
    var inflated := codec.inflate(frame);
    if inflated.None? then None
    else
      var values := ParseFrame(codec.decode(inflated.value), codec.parse);
      if values.None? then None else codec.deflate(Encode(JsonLines(RedactAll(values.value, x))))
  }

  function RewriteEach(frames: seq<ByteString>, x: Settings, codec: Codec): Option<seq<ByteString>>
    requires Usable(x)
  {
    if frames == [] then Some([])
    else
      var first := RewriteFrame(frames[0], x, codec);
      var rest := RewriteEach(frames[1..], x, codec);
      if first.None? || rest.None? then None else Some([first.value] + rest.value)
  }

  // `rewriteRuntimeDeflateFrames`: an incomplete frame fails, and so does one that cannot be written.
  function RewriteFrames(content: ByteString, x: Settings, codec: Codec): Option<ByteString>
    requires Usable(x)
  {
    var (frames, torn) := Frames(content);
    var rewritten := RewriteEach(frames, x, codec);
    if torn != [] || rewritten.None? then None
    else if Framed(rewritten.value) then Some(Stream(rewritten.value))
    else None
  }

  predicate IsRewritten(path: string) {
    HasExtension(path, ".deflate") || IsJson(path)
  }

  function RewriteFile(root: string, path: string, content: ByteString, x: Settings, codec: Codec): Option<ByteString>
    requires Usable(x)
  {
    if HasExtension(path, ".deflate") then RewriteFrames(content, x, codec)
    else RewriteText(root, path, content, x, codec)
  }

  // ---------- what is left alone, and what fails ----------

  // Some line, or the whole file, is no JSON.
  predicate IsMalformed(path: string, text: string, parse: Parser) {
    if HasExtension(path, ".jsonl") then
      !IsBlank(text) && exists i :: 0 <= i < |Lines(Trim(text))| && parse(Lines(Trim(text))[i]).None?
    else parse(text).None?
  }

  lemma {:induction false} EachLineParses(lines: seq<string>, parse: Parser)
    ensures ParseEach(lines, parse).None? <==> exists i :: 0 <= i < |lines| && parse(lines[i]).None?
  {
    if lines != [] {
      EachLineParses(lines[1..], parse);
      if parse(lines[0]).Some? && exists i :: 0 <= i < |lines| && parse(lines[i]).None? {
        var i :| 0 <= i < |lines| && parse(lines[i]).None?;
        assert lines[1..][i - 1] == lines[i];
      }
      if exists i :: 0 <= i < |lines[1..]| && parse(lines[1..][i]).None? {
        var i :| 0 <= i < |lines[1..]| && parse(lines[1..][i]).None?;
        assert lines[i + 1] == lines[1..][i];
      }
    }
  }

  // A text with neither name keeps every byte, well-formed or not; any other one is rewritten, unless it is
  // malformed, and then the call fails.
  lemma {:induction false} RewriteTextFailsIff(
    root: string, path: string, content: ByteString, x: Settings, codec: Codec)
    requires Usable(x) && IsJson(path)
    ensures var text := codec.decode(content);
      var touched := Contains(text, x.subject) || (Contains(text, x.source) && !(root + MANIFESTS <= path));
      && (!touched ==> RewriteText(root, path, content, x, codec) == Some(content))
      && (RewriteText(root, path, content, x, codec).None? <==> touched && IsMalformed(path, text, codec.parse))
  {
    var text := codec.decode(content);
    TrimIsBlank(text);
    EachLineParses(Lines(Trim(text)), codec.parse);
  }

  // A frame that cannot be read or written back.
  predicate IsBadFrame(frame: ByteString, x: Settings, codec: Codec)
    requires Usable(x)
  {
    var inflated := codec.inflate(frame);
    || inflated.None?
    || ParseFrame(codec.decode(inflated.value), codec.parse).None?
    || codec.deflate(Encode(JsonLines(RedactAll(ParseFrame(codec.decode(inflated.value), codec.parse).value, x)))).None?
  }

  lemma {:induction false} EachFrameFailsIff(frames: seq<ByteString>, x: Settings, codec: Codec)
    requires Usable(x)
    ensures RewriteEach(frames, x, codec).None? <==> exists i :: 0 <= i < |frames| && IsBadFrame(frames[i], x, codec)
  {
    if frames != [] {
      EachFrameFailsIff(frames[1..], x, codec);
      assert RewriteFrame(frames[0], x, codec).None? <==> IsBadFrame(frames[0], x, codec);
      if exists i :: 1 <= i < |frames| && IsBadFrame(frames[i], x, codec) {
        var i :| 1 <= i < |frames| && IsBadFrame(frames[i], x, codec);
        assert frames[1..][i - 1] == frames[i];
      }
      if exists i :: 0 <= i < |frames[1..]| && IsBadFrame(frames[1..][i], x, codec) {
        var i :| 0 <= i < |frames[1..]| && IsBadFrame(frames[1..][i], x, codec);
        assert frames[i + 1] == frames[1..][i];
      }
    }
  }

  // ---------- written documents come out redacted ----------

  lemma {:induction false} ReadUndoesWrite(path: string, vs: seq<Json>, parse: Parser)
    requires Undoes(parse) && Writable(path, vs) && forall i :: 0 <= i < |vs| ==> WellFormed(vs[i])
    ensures ReadDocuments(path, WriteDocuments(path, vs), parse) == Some(vs)
  {
    if HasExtension(path, ".jsonl") {
      ParseLinesUndoes(vs, parse);
    } else {
      assert WellFormed(vs[0]) && vs == [vs[0]];
    }
  }

  lemma {:induction false} TextsAreStrings(v: Json, i: nat)
    requires i < |Texts(v)|
    ensures IsStringOf(v, Texts(v)[i])
    decreases v, 1
  {
    match v
    case Array(items) => var k := ItemOfText(v, items, i);
    case Object(members) => var k := MemberOfText(v, members, i);
    case _ =>
  }

  lemma {:induction false} ItemOfText(whole: Json, items: seq<Json>, i: nat) returns (k: nat)
    requires Inside(whole, items) && i < |ItemTexts(whole, items)|
    ensures k < |items| && IsStringOf(items[k], ItemTexts(whole, items)[i])
    decreases whole, 0, |items|
  {
    if i < |Texts(items[0])| {
      k := 0;
      TextsAreStrings(items[0], i);
    } else {
      k := ItemOfText(whole, items[1..], i - |Texts(items[0])|);
      k := k + 1;
    }
  }

  lemma {:induction false} MemberOfText(whole: Json, members: seq<Member>, i: nat) returns (k: nat)
    requires MembersInside(whole, members) && i < |MemberTexts(whole, members)|
    ensures k < |members| && IsStringOf(members[k].value, MemberTexts(whole, members)[i])
    decreases whole, 0, |members|
  {
    if i < |Texts(members[0].value)| {
      k := 0;
      TextsAreStrings(members[0].value, i);
    } else {
      k := MemberOfText(whole, members[1..], i - |Texts(members[0].value)|);
      k := k + 1;
    }
  }

  lemma {:induction false} FoundInDocuments(path: string, vs: seq<Json>, name: string)
    requires Writable(path, vs) && Detectable(name) && Holds(vs, name)
    ensures Contains(WriteDocuments(path, vs), name)
  {
    if HasExtension(path, ".jsonl") {
      FoundInLines(vs, name);
    } else {
      assert vs == [vs[0]];
      FoundInFile(vs[0], name);
    }
  }

  // No text of the values holds the name.
  ghost predicate TextsFree(vs: seq<Json>, name: string) {
    forall k, i :: 0 <= k < |vs| && 0 <= i < |Texts(vs[k])| ==> !Contains(Texts(vs[k])[i], name)
  }

  lemma {:induction false} NotWrittenNotHeld(path: string, vs: seq<Json>, name: string)
    requires Writable(path, vs) && Detectable(name) && !Contains(WriteDocuments(path, vs), name)
    ensures TextsFree(vs, name)
  {
    forall k, i | 0 <= k < |vs| && 0 <= i < |Texts(vs[k])| ensures !Contains(Texts(vs[k])[i], name) {
      if Contains(Texts(vs[k])[i], name) {
        TextsAreStrings(vs[k], i);
        FoundInDocuments(path, vs, name);
      }
    }
  }

  lemma {:induction false} FreeDocumentsStay(vs: seq<Json>, x: Settings)
    requires Usable(x) && TextsFree(vs, x.subject) && TextsFree(vs, x.source)
    ensures RedactAll(vs, x) == vs
  {
    forall k | 0 <= k < |vs| ensures RedactAll(vs, x)[k] == vs[k] {
      CleanValueStays(vs[k], x);
    }
  }

  // The copy of a written document is the redacted document, whether the file was rewritten or passed
  // over. The plain search may only be trusted with names and roots that escaping leaves readable.
  lemma {:induction false} DocumentIsRedacted(root: string, path: string, vs: seq<Json>, x: Settings, codec: Codec)
    requires Lawful(codec) && Usable(x) && IsJson(path) && Writable(path, vs)
    requires forall i :: 0 <= i < |vs| ==> WellFormed(vs[i])
    requires Detectable(x.subject)
    requires if IsManifest(root, path) then TextsFree(vs, MARKER_ROOT) else Detectable(x.source)
    ensures RewriteText(root, path, Encode(WriteDocuments(path, vs)), x, codec)
         == Some(Encode(WriteDocuments(path, RedactAll(vs, SettingsFor(x, IsManifest(root, path))))))
  {
    var text, manifest := WriteDocuments(path, vs), IsManifest(root, path);
    if Skipped(text, x, manifest) {
      NotWrittenNotHeld(path, vs, x.subject);
      if !manifest {
        NotWrittenNotHeld(path, vs, x.source);
      }
      FreeDocumentsStay(vs, SettingsFor(x, manifest));
    } else {
      ReadUndoesWrite(path, vs, codec.parse);
    }
  }

  // Compressed lines for each list of values, none of which may be empty.
  function WriteFrames(all: seq<seq<Json>>, codec: Codec): Option<seq<ByteString>> {
    if all == [] then Some([])
    else if all[0] == [] then None
    else
      var first := codec.deflate(Encode(JsonLines(all[0])));
      var rest := WriteFrames(all[1..], codec);
      if first.None? || rest.None? then None else Some([first.value] + rest.value)
  }

  function RedactLists(all: seq<seq<Json>>, x: Settings): seq<seq<Json>>
    requires Usable(x)
  {
    if all == [] then [] else [RedactAll(all[0], x)] + RedactLists(all[1..], x)
  }

  lemma {:induction false} WrittenAreFramed(all: seq<seq<Json>>, codec: Codec)
    requires Lawful(codec) && WriteFrames(all, codec).Some?
    ensures Framed(WriteFrames(all, codec).value)
  {
    if all != [] {
      assert codec.deflate(Encode(JsonLines(all[0]))).Some?;
      WrittenAreFramed(all[1..], codec);
    }
  }

  lemma {:induction false} EachFrameIsRedacted(all: seq<seq<Json>>, x: Settings, codec: Codec)
    requires Lawful(codec) && Usable(x) && WriteFrames(all, codec).Some?
    requires forall k, i :: 0 <= k < |all| && 0 <= i < |all[k]| ==> WellFormed(all[k][i])
    ensures RewriteEach(WriteFrames(all, codec).value, x, codec) == WriteFrames(RedactLists(all, x), codec)
  {
    if all != [] {
      var first := codec.deflate(Encode(JsonLines(all[0])));
      assert forall i :: 0 <= i < |all[0]| ==> WellFormed(all[0][i]);
      FrameIsRedacted(all[0], x, codec);
      EachFrameIsRedacted(all[1..], x, codec);
      RewriteEachSplits(first.value, WriteFrames(all[1..], codec).value, x, codec);
      assert RedactLists(all, x)[1..] == RedactLists(all[1..], x);
    }
  }

  lemma {:induction false} FrameIsRedacted(vs: seq<Json>, x: Settings, codec: Codec)
    requires Lawful(codec) && Usable(x) && vs != [] && codec.deflate(Encode(JsonLines(vs))).Some?
    requires forall i :: 0 <= i < |vs| ==> WellFormed(vs[i])
    ensures RewriteFrame(codec.deflate(Encode(JsonLines(vs))).value, x, codec) ==
      codec.deflate(Encode(JsonLines(RedactAll(vs, x))))
  {
    ParseFrameUndoes(vs, codec.parse);
  }

  lemma {:induction false} RewriteEachSplits(first: ByteString, rest: seq<ByteString>, x: Settings, codec: Codec)
    requires Usable(x)
    ensures RewriteEach([first] + rest, x, codec) ==
      var head, tail := RewriteFrame(first, x, codec), RewriteEach(rest, x, codec);
      if head.None? || tail.None? then None else Some([head.value] + tail.value)
  {
    assert ([first] + rest)[1..] == rest;
  }

  // A written frame file comes out with every value redacted, frame by frame; it fails only when a
  // redacted frame cannot be written.
  lemma {:induction false} FramesAreRedacted(all: seq<seq<Json>>, x: Settings, codec: Codec)
    requires Lawful(codec) && Usable(x) && WriteFrames(all, codec).Some?
    requires forall k, i :: 0 <= k < |all| && 0 <= i < |all[k]| ==> WellFormed(all[k][i])
    ensures Framed(WriteFrames(all, codec).value)
    ensures var redacted := WriteFrames(RedactLists(all, x), codec);
      (redacted.Some? ==> Framed(redacted.value))
      && RewriteFrames(Stream(WriteFrames(all, codec).value), x, codec)
         == if redacted.None? then None else Some(Stream(redacted.value))
  {
    var frames := WriteFrames(all, codec).value;
    WrittenAreFramed(all, codec);
    FramesUndoStream(frames, []);
    assert Stream(frames) + [] == Stream(frames);
    EachFrameIsRedacted(all, x, codec);
    if WriteFrames(RedactLists(all, x), codec).Some? {
      WrittenAreFramed(RedactLists(all, x), codec);
    }
  }

  // Texts of redacted documents are free of the subject when neither tombstone nor root rebuilds it.
  lemma {:induction false} RedactedDocumentsAreClean(vs: seq<Json>, x: Settings)
    requires Accepted(x) && Apart(x.subject, x.tombstone) && RootsApart(x)
    ensures TextsFree(RedactAll(vs, x), x.subject)
  {
    var rs := RedactAll(vs, x);
    forall k, i | 0 <= k < |rs| && 0 <= i < |Texts(rs[k])| ensures !Contains(Texts(rs[k])[i], x.subject) {
      RedactValueIsFaithful(vs[k], x);
      EachIsRedacted(Texts(vs[k]), x, i);
      RedactedTextIsClean(Texts(vs[k])[i], x);
    }
  }

  lemma {:induction false} EachIsRedacted(texts: seq<string>, x: Settings, i: nat)
    requires Usable(x) && i < |RedactEach(texts, x)|
    ensures i < |texts| && RedactEach(texts, x)[i] == RedactText(texts[i], x).value
  {
    if i > 0 {
      EachIsRedacted(texts[1..], x, i - 1);
    }
  }
}
