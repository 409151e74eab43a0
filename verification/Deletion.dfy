// Deletion of one participant's data: the source tree is copied, the copy is redacted and searched for
// the subject, and either the artifact is written or the copy is removed again.
module Deletion {
  import opened Wrappers
  import opened Paths
  import opened Bytes
  import opened Substring
  import opened JsText
  import opened Utf8
  import opened CanonicalJson
  import opened JsonDocuments
  import opened Redaction
  import opened DocumentRewrite
  import DeflateFrames

  // Regular files by absolute path.
  type Files = map<string, ByteString>

  // Decoders and digests, and the redaction of event stores, which answers nothing when it throws.
  datatype Tools = Tools(
    fingerprint: Files -> string,
    redactEvents: Files -> Option<Files>,
    codec: Codec,
    gunzip: ByteString -> Option<ByteString>,
    traceContains: (Files, string, string) -> Option<bool>,
    serialize: Artifact -> ByteString)

  // The arguments of a call: resolved roots, the texts as given, the event stores found in the copy, and
  // the source tree as it is read again after the copy.
  datatype Request = Request(
    source: string, target: string, subject: string, tombstone: string,
    eventRoots: seq<string>, sourceAfter: Files)

  datatype Artifact = Artifact(sourceFingerprint: string, targetFingerprint: string, tombstone: string)

  datatype Failure =
    | EmptySubject | SubjectHasSeparator | RootsNotDisjoint | SubjectInRoot | SourceMissing | TargetExists
    | EmptyTombstone | TombstoneIsSubject | SourceChanged | Unsupported | ResidualReferences

  const ARTIFACT_NAME := "/participant-data-deletion.json"
  const TRACES := "/agent-cycle-traces.jsonl.gz"

  function Under(files: Files, root: string): Files {
    map p | p in files && IsSameOrNested(p, root) :: files[p]
  }

  function Without(files: Files, root: string): Files {
    map p | p in files && !IsSameOrNested(p, root) :: files[p]
  }

  // ---------- the search for what is left ----------

  // What the search finds in one file; it fails when the file cannot be decoded.
  function Residual(files: Files, path: string, content: ByteString, subject: string, tools: Tools): Option<bool> {
    if EndsWith(path, TRACES) then tools.traceContains(files, path, subject)
    else if HasExtension(path, ".gz") then
      var inflated := tools.gunzip(content);
      if inflated.None? then None else Some(Contains(inflated.value, Encode(subject)))
    else if HasExtension(path, ".deflate") then
      var scan := DeflateFrames.Scan(content, Encode(subject), tools.codec.inflate);
      if scan.Error? then None else Some(scan.value)
    else Some(Contains(content, Encode(subject)))
  }

  // Every file can be searched.
  predicate Searchable(files: Files, subject: string, tools: Tools) {
    forall p :: p in files ==> Residual(files, p, files[p], subject, tools).Some?
  }

  function Residuals(files: Files, subject: string, tools: Tools): set<string> {
    set p | p in files && Residual(files, p, files[p], subject, tools) == Some(true)
  }

  // ---------- copy and redaction ----------

  // The path of a source file in the copy.
  function Relocate(path: string, source: string, target: string): string
    requires IsSameOrNested(path, source)
  {
    target + path[|source|..]
  }

  lemma {:induction false} RelocateIsInjective(a: string, b: string, source: string, target: string)
    requires IsSameOrNested(a, source) && IsSameOrNested(b, source)
    requires Relocate(a, source, target) == Relocate(b, source, target)
    ensures a == b
  {
    assert a[|source|..] == Relocate(a, source, target)[|target|..] == b[|source|..];
    assert a == source + a[|source|..] && b == source + b[|source|..];
  }

  lemma {:induction false} RelocateAllIsInjective(files: Files, source: string, target: string)
    ensures forall a, b | a in Under(files, source) && b in Under(files, source) ::
              Relocate(a, source, target) == Relocate(b, source, target) ==> a == b
  {
    forall a, b | a in Under(files, source) && b in Under(files, source)
      ensures Relocate(a, source, target) == Relocate(b, source, target) ==> a == b
    {
      if Relocate(a, source, target) == Relocate(b, source, target) {
        RelocateIsInjective(a, b, source, target);
      }
    }
  }

  function Copied(files: Files, source: string, target: string): Files {
    RelocateAllIsInjective(files, source, target);
    map p | p in Under(files, source) :: Relocate(p, source, target) := files[p]
  }

  predicate InEventStore(path: string, eventRoots: seq<string>) {
    exists i :: 0 <= i < |eventRoots| && IsSameOrNested(path, eventRoots[i])
  }

  // Files rewritten one by one; event stores are handled before.
  predicate IsOwn(path: string, eventRoots: seq<string>) {
    !InEventStore(path, eventRoots) && IsRewritten(path)
  }

  predicate Rewrites(tree: Files, root: string, eventRoots: seq<string>, x: Settings, codec: Codec)
    requires Usable(x)
  {
    forall p :: p in tree && IsOwn(p, eventRoots) ==> RewriteFile(root, p, tree[p], x, codec).Some?
  }

  // The copy after every file was rewritten.
  function Rewritten(tree: Files, root: string, eventRoots: seq<string>, x: Settings, codec: Codec): Files
    requires Usable(x) && Rewrites(tree, root, eventRoots, x, codec)
  {
    map p | p in tree :: if IsOwn(p, eventRoots) then RewriteFile(root, p, tree[p], x, codec).value else tree[p]
  }

  // ---------- the checks, and what the call answers ----------

  function Check(files: Files, request: Request): Result<Settings, Failure> {
    var subject, tombstone := Trim(request.subject), Trim(request.tombstone);
    if subject == "" then Error(EmptySubject)
    else if '/' in subject then Error(SubjectHasSeparator)
    else if !Disjoint(request.source, request.target) then Error(RootsNotDisjoint)
    else if Contains(request.source, subject) || Contains(request.target, subject) then Error(SubjectInRoot)
    else if Under(files, request.source) == map[] then Error(SourceMissing)
    else if Under(files, request.target) != map[] then Error(TargetExists)
    else if tombstone == "" then Error(EmptyTombstone)
    else if tombstone == subject then Error(TombstoneIsSubject)
    else Ok(Settings(subject, tombstone, request.source, request.target))
  }

  // The roots are resolved, so they are absolute.
  predicate Resolved(request: Request) {
    SEPARATOR <= request.source && SEPARATOR <= request.target
  }

  lemma {:induction false} CheckedIsAccepted(files: Files, request: Request)
    requires Resolved(request) && Check(files, request).Ok?
    ensures Accepted(Check(files, request).value) && Trimmed(Check(files, request).value.subject)
  {
    TrimMeans(request.subject);
  }

  // The checks in their order.
  const CHECKS := [
    EmptySubject, SubjectHasSeparator, RootsNotDisjoint, SubjectInRoot, SourceMissing, TargetExists,
    EmptyTombstone, TombstoneIsSubject]

  // What each of them refuses, said of the arguments and the disk.
  ghost predicate Refuses(check: Failure, files: Files, request: Request) {
    match check
    case EmptySubject => IsBlank(request.subject)
    case SubjectHasSeparator => '/' in request.subject
    case RootsNotDisjoint => !ShareNothing(request.source, request.target)
    case SubjectInRoot =>
      exists name ::
        IsTrimOf(request.subject, name) && (Contains(request.source, name) || Contains(request.target, name))
    case SourceMissing => forall p :: p in files ==> !IsSameOrNested(p, request.source)
    case TargetExists => exists p :: p in files && IsSameOrNested(p, request.target)
    case EmptyTombstone => IsBlank(request.tombstone)
    case TombstoneIsSubject =>
      exists name :: IsTrimOf(request.subject, name) && IsTrimOf(request.tombstone, name)
    case _ => false
  }

  ghost predicate IsFirstRefusal(i: nat, files: Files, request: Request)
    requires i < |CHECKS|
  {
    Refuses(CHECKS[i], files, request) && forall j :: 0 <= j < i ==> !Refuses(CHECKS[j], files, request)
  }

  lemma {:induction false} OnlyTrim(s: string)
    ensures forall name :: IsTrimOf(s, name) <==> name == Trim(s)
  {
    TrimMeans(s);
    forall name | IsTrimOf(s, name) ensures name == Trim(s) {
      TrimIsUnique(s, name, Trim(s));
    }
  }

  lemma {:induction false} RefusalMeans(check: Failure, files: Files, request: Request)
    ensures var subject, tombstone := Trim(request.subject), Trim(request.tombstone);
      Refuses(check, files, request) <==>
        match check
        case EmptySubject => subject == ""
        case SubjectHasSeparator => '/' in subject
        case RootsNotDisjoint => !Disjoint(request.source, request.target)
        case SubjectInRoot => Contains(request.source, subject) || Contains(request.target, subject)
        case SourceMissing => Under(files, request.source) == map[]
        case TargetExists => Under(files, request.target) != map[]
        case EmptyTombstone => tombstone == ""
        case TombstoneIsSubject => tombstone == subject
        case _ => false
  {
    match check
    case EmptySubject => TrimIsBlank(request.subject);
    case SubjectHasSeparator => TrimKeeps(request.subject, '/');
    case RootsNotDisjoint => DisjointIff(request.source, request.target);
    case SubjectInRoot => NameInRoot(request, Trim(request.subject));
    case SourceMissing => HoldsNothing(files, request.source);
    case TargetExists => HoldsNothing(files, request.target);
    case EmptyTombstone => TrimIsBlank(request.tombstone);
    case TombstoneIsSubject => SameNames(request, Trim(request.subject), Trim(request.tombstone));
    case _ =>
  }

  lemma {:induction false} NameInRoot(request: Request, subject: string)
    requires subject == Trim(request.subject)
    ensures (exists name ::
        IsTrimOf(request.subject, name) && (Contains(request.source, name) || Contains(request.target, name))) <==>
      Contains(request.source, subject) || Contains(request.target, subject)
  {
    OnlyTrim(request.subject);
    assert IsTrimOf(request.subject, subject);
  }

  lemma {:induction false} SameNames(request: Request, subject: string, tombstone: string)
    requires subject == Trim(request.subject) && tombstone == Trim(request.tombstone)
    ensures (exists name :: IsTrimOf(request.subject, name) && IsTrimOf(request.tombstone, name)) <==>
      tombstone == subject
  {
    OnlyTrim(request.subject);
    OnlyTrim(request.tombstone);
    assert IsTrimOf(request.subject, subject) && IsTrimOf(request.tombstone, tombstone);
  }

  lemma {:induction false} HoldsNothing(files: Files, root: string)
    ensures Under(files, root) == map[] <==> forall p :: p in files ==> !IsSameOrNested(p, root)
  {
    var found := Under(files, root);
    assert found == map[] <==> found.Keys == {};
    assert forall p :: p in found.Keys <==> p in files && IsSameOrNested(p, root);
  }

  // A check answers exactly for its own reason, unless an earlier one does; the settings are the trimmed
  // arguments.
  lemma {:induction false} CheckNamesFirst(files: Files, request: Request)
    ensures forall i :: 0 <= i < |CHECKS| ==>
      (Check(files, request) == Error(CHECKS[i]) <==> IsFirstRefusal(i, files, request))
    ensures Check(files, request).Ok? <==> PassesChecks(files, request)
    ensures Check(files, request).Ok? ==> IsSettings(request, Check(files, request).value)
  {
    TrimMeans(request.subject);
    TrimMeans(request.tombstone);
    if Check(files, request).Ok? {
      NothingRefuses(files, request);
    } else {
      var i := FirstRefusal(files, request);
      SameFirst(files, request, i);
    }
  }

  lemma {:induction false} NothingRefuses(files: Files, request: Request)
    requires Check(files, request).Ok?
    ensures forall i :: 0 <= i < |CHECKS| ==> !Refuses(CHECKS[i], files, request)
  {
    forall i | 0 <= i < |CHECKS| ensures !Refuses(CHECKS[i], files, request) {
      RefusalMeans(CHECKS[i], files, request);
    }
  }

  lemma {:induction false} FirstRefusal(files: Files, request: Request) returns (i: nat)
    requires Check(files, request).Error?
    ensures i < |CHECKS| && CHECKS[i] == Check(files, request).error && IsFirstRefusal(i, files, request)
  {
    var error := Check(files, request).error;
    i := match error
      case EmptySubject => 0
      case SubjectHasSeparator => 1
      case RootsNotDisjoint => 2
      case SubjectInRoot => 3
      case SourceMissing => 4
      case TargetExists => 5
      case EmptyTombstone => 6
      case _ => 7;
    RefusalMeans(error, files, request);
    forall j | 0 <= j < i ensures !Refuses(CHECKS[j], files, request) {
      RefusalMeans(CHECKS[j], files, request);
    }
  }

  lemma {:induction false} SameFirst(files: Files, request: Request, i: nat)
    requires i < |CHECKS| && IsFirstRefusal(i, files, request)
    ensures forall k :: 0 <= k < |CHECKS| ==> (CHECKS[i] == CHECKS[k] <==> IsFirstRefusal(k, files, request))
  {
    assert forall a, b :: 0 <= a < b < |CHECKS| ==> CHECKS[a] != CHECKS[b];
  }

  ghost predicate PassesChecks(files: Files, request: Request) {
    forall i :: 0 <= i < |CHECKS| ==> !Refuses(CHECKS[i], files, request)
  }

  predicate IsSettings(request: Request, x: Settings) {
    && IsTrimOf(request.subject, x.subject) && IsTrimOf(request.tombstone, x.tombstone)
    && x.source == request.source && x.target == request.target
  }

  // The copy after event redaction, or why there is none.
  function EventsRedacted(files: Files, request: Request, x: Settings, tools: Tools): Result<Files, Failure> {
    var events := tools.redactEvents(Copied(files, x.source, x.target));
    if tools.fingerprint(Under(files, x.source)) != tools.fingerprint(request.sourceAfter) then Error(SourceChanged)
    else if events.None? then Error(Unsupported)
    else Ok(events.value)
  }

  function Prepared(tree: Files, request: Request, x: Settings, tools: Tools): Result<Files, Failure>
    requires Usable(x)
  {
    if !Rewrites(tree, x.target, request.eventRoots, x, tools.codec) then Error(Unsupported)
    else Ok(Rewritten(tree, x.target, request.eventRoots, x, tools.codec))
  }

  function Searched(copy: Files, subject: string, tools: Tools): Result<Files, Failure> {
    if !Searchable(copy, subject, tools) then Error(Unsupported)
    else if Residuals(copy, subject, tools) != {} then Error(ResidualReferences)
    else Ok(copy)
  }

  // The tree that is published for checked arguments, or why the call throws.
  function CheckedOutcome(files: Files, request: Request, x: Settings, tools: Tools): Result<Files, Failure>
    requires Usable(x)
  {
    var tree :- EventsRedacted(files, request, x, tools);
    var copy :- Prepared(tree, request, x, tools);
    Searched(copy, x.subject, tools)
  }

  function Outcome(files: Files, request: Request, tools: Tools): Result<Files, Failure>
    requires Resolved(request)
  {
    var x :- Check(files, request);
    CheckedIsAccepted(files, request);
    CheckedOutcome(files, request, x, tools)
  }

  // ---------- the answer to checked arguments ----------

  // The copy holds what the source holds, at the same place below its own root, and nothing else.
  ghost predicate IsCopy(files: Files, copy: Files, source: string, target: string) {
    && (forall rest :: IsSameOrNested(source + rest, source) ==>
         (target + rest in copy <==> source + rest in files)
         && (source + rest in files && target + rest in copy ==> copy[target + rest] == files[source + rest]))
    && (forall q :: q in copy ==> IsSameOrNested(q, target))
  }

  lemma {:induction false} CopiedIsCopy(files: Files, source: string, target: string)
    ensures IsCopy(files, Copied(files, source, target), source, target)
  {
    var copy := Copied(files, source, target);
    RelocateAllIsInjective(files, source, target);
    forall rest | IsSameOrNested(source + rest, source)
      ensures target + rest in copy <==> source + rest in files
      ensures source + rest in files && target + rest in copy ==> copy[target + rest] == files[source + rest]
    {
      CopiedAt(files, source, target, rest);
    }
    forall q | q in copy ensures IsSameOrNested(q, target) {
      CopiedIsBelow(files, source, target, q);
    }
  }

  lemma {:induction false} CopiedIsBelow(files: Files, source: string, target: string, q: string)
    requires q in Copied(files, source, target)
    ensures IsSameOrNested(q, target)
  {
    var p :| p in Under(files, source) && Relocate(p, source, target) == q;
    assert p == source + p[|source|..];
    RelocatedIsBelow(source, target, p[|source|..]);
  }

  lemma {:induction false} RelocatedIsBelow(source: string, target: string, rest: string)
    requires IsSameOrNested(source + rest, source)
    ensures IsSameOrNested(target + rest, target)
  {
    if rest != "" {
      assert source + rest != source;
      assert (source + rest)[..|source| + 1] == source + SEPARATOR;
      assert (source + rest)[|source|] == rest[0] == '/';
      assert target + rest == target + SEPARATOR + rest[1..];
    } else {
      assert target + rest == target;
    }
  }

  lemma {:induction false} CopiedAt(files: Files, source: string, target: string, rest: string)
    requires IsSameOrNested(source + rest, source)
    ensures var copy := Copied(files, source, target);
      && (target + rest in copy <==> source + rest in files)
      && (source + rest in files ==> copy[target + rest] == files[source + rest])
  {
    RelocateAllIsInjective(files, source, target);
    assert Relocate(source + rest, source, target) == target + rest;
    if target + rest in Copied(files, source, target) {
      var p :| p in Under(files, source) && Relocate(p, source, target) == target + rest;
      RelocateIsInjective(p, source + rest, source, target);
    }
  }

  // Event stores as their redaction left them, documents redacted, all else as copied.
  ghost predicate IsRedactedCopy(files: Files, request: Request, x: Settings, tools: Tools, copy: Files)
    requires Usable(x)
  {
    exists copied, events ::
      && IsCopy(files, copied, x.source, x.target) && tools.redactEvents(copied) == Some(events)
      && IsRedactionOf(events, copy, request.eventRoots, x, tools.codec)
  }

  ghost predicate IsRedactionOf(events: Files, copy: Files, eventRoots: seq<string>, x: Settings, codec: Codec)
    requires Usable(x)
  {
    && copy.Keys == events.Keys
    && forall p :: p in events ==>
         if InEventStore(p, eventRoots) || !IsRewritten(p) then copy[p] == events[p]
         else RewriteFile(x.target, p, events[p], x, codec) == Some(copy[p])
  }

  // Every file could be searched, and none holds the subject.
  predicate NothingFound(copy: Files, subject: string, tools: Tools) {
    forall p :: p in copy ==> Residual(copy, p, copy[p], subject, tools) == Some(false)
  }

  ghost predicate SourceStayed(files: Files, request: Request, x: Settings, tools: Tools) {
    tools.fingerprint(Under(files, x.source)) == tools.fingerprint(request.sourceAfter)
  }

  // What a call with checked arguments answers, and when.
  ghost predicate IsAnswer(files: Files, request: Request, x: Settings, tools: Tools, r: Result<Files, Failure>)
    requires Usable(x)
  {
    IsVerdict(r, SourceStayed(files, request, x, tools),
      r.Ok? && IsCleanCopy(files, request, x, tools, r.value),
      NoneSearchable(files, request, x, tools), SomeFound(files, request, x, tools))
  }

  // A clean copy, or why there is none: the source changed, no copy could be redacted and searched, or
  // something was found.
  predicate IsVerdict(r: Result<Files, Failure>, stayed: bool, clean: bool, unsupported: bool, found: bool) {
    match r
    case Ok(_) => stayed && clean
    case Error(SourceChanged) => !stayed
    case Error(Unsupported) => stayed && unsupported
    case Error(ResidualReferences) => stayed && found
    case Error(_) => false
  }

  ghost predicate IsCleanCopy(files: Files, request: Request, x: Settings, tools: Tools, copy: Files)
    requires Usable(x)
  {
    IsRedactedCopy(files, request, x, tools, copy) && NothingFound(copy, x.subject, tools)
  }

  // Before and after a call that passed the checks.
  ghost predicate IsAnswered(
    before: Files, after: Files, request: Request, tools: Tools, r: Result<Artifact, Failure>)
  {
    exists x :: IsSettings(request, x) && Usable(x) && IsAnsweredWith(before, after, request, tools, r, x)
  }

  // An artifact exactly when there is a redacted copy in which nothing is found, and then it stands at the
  // target with the artifact beside it; otherwise the error says what is the matter, and nothing changes.
  ghost predicate IsAnsweredWith(
    before: Files, after: Files, request: Request, tools: Tools, r: Result<Artifact, Failure>, x: Settings)
    requires Usable(x)
  {
    match r
    case Error(error) => IsAnswer(before, request, x, tools, Error(error)) && after == before
    case Ok(artifact) =>
      && artifact.tombstone == x.tombstone && artifact.sourceFingerprint == tools.fingerprint(Under(before, x.source))
      && exists copy ::
           IsAnswer(before, request, x, tools, Ok(copy)) && artifact.targetFingerprint == tools.fingerprint(copy)
           && Under(after, x.target) == copy[x.target + ARTIFACT_NAME := tools.serialize(artifact)]
  }

  // No redacted copy can be made, or it cannot be searched.
  ghost predicate NoneSearchable(files: Files, request: Request, x: Settings, tools: Tools)
    requires Usable(x)
  {
    forall copy :: IsRedactedCopy(files, request, x, tools, copy) ==> !Searchable(copy, x.subject, tools)
  }

  ghost predicate SomeFound(files: Files, request: Request, x: Settings, tools: Tools)
    requires Usable(x)
  {
    exists copy :: IsRedactedCopy(files, request, x, tools, copy) && Searchable(copy, x.subject, tools)
      && !NothingFound(copy, x.subject, tools)
  }

  lemma {:induction false} CopyIsUnique(files: Files, a: Files, b: Files, source: string, target: string)
    requires IsCopy(files, a, source, target) && IsCopy(files, b, source, target)
    ensures a == b
  {
    forall q | IsSameOrNested(q, target) ensures q in a <==> q in b
      ensures q in a && q in b ==> a[q] == b[q]
    {
      var rest := q[|target|..];
      assert q == target + rest;
      RelocatedIsBelow(target, source, rest);
    }
  }

  lemma {:induction false} RedactionIsUnique(
    events: Files, a: Files, b: Files, eventRoots: seq<string>, x: Settings, codec: Codec)
    requires Usable(x)
    requires IsRedactionOf(events, a, eventRoots, x, codec) && IsRedactionOf(events, b, eventRoots, x, codec)
    ensures a == b
  {
    forall p | p in events ensures a[p] == b[p] {
    }
  }

  lemma {:induction false} RewrittenIsRedaction(tree: Files, eventRoots: seq<string>, x: Settings, codec: Codec)
    requires Usable(x)
    ensures Rewrites(tree, x.target, eventRoots, x, codec) <==>
      exists copy :: IsRedactionOf(tree, copy, eventRoots, x, codec)
    ensures Rewrites(tree, x.target, eventRoots, x, codec) ==>
      IsRedactionOf(tree, Rewritten(tree, x.target, eventRoots, x, codec), eventRoots, x, codec)
  {
    if Rewrites(tree, x.target, eventRoots, x, codec) {
      assert IsRedactionOf(tree, Rewritten(tree, x.target, eventRoots, x, codec), eventRoots, x, codec);
    }
  }

  // The redacted copies there are: the one that is prepared, or none.
  lemma {:induction false} RedactedCopyIs(files: Files, request: Request, x: Settings, tools: Tools, copy: Files)
    requires Usable(x) && SourceStayed(files, request, x, tools)
    ensures IsRedactedCopy(files, request, x, tools, copy) <==>
      var tree := EventsRedacted(files, request, x, tools);
      tree.Ok? && Prepared(tree.value, request, x, tools) == Ok(copy)
  {
    var copied := Copied(files, x.source, x.target);
    CopiedIsCopy(files, x.source, x.target);
    var events := tools.redactEvents(copied);
    if events.Some? {
      RewrittenIsRedaction(events.value, request.eventRoots, x, tools.codec);
      if Rewrites(events.value, x.target, request.eventRoots, x, tools.codec) {
        assert IsRedactedCopy(files, request, x, tools,
          Rewritten(events.value, x.target, request.eventRoots, x, tools.codec));
      }
    }
    if IsRedactedCopy(files, request, x, tools, copy) {
      var c, e :| IsCopy(files, c, x.source, x.target) && tools.redactEvents(c) == Some(e)
        && IsRedactionOf(e, copy, request.eventRoots, x, tools.codec);
      CopyIsUnique(files, c, copied, x.source, x.target);
      assert events == Some(e);
      RedactionIsUnique(e, copy, Rewritten(e, x.target, request.eventRoots, x, tools.codec), request.eventRoots, x,
        tools.codec);
    }
  }

  lemma {:induction false} SearchedIs(copy: Files, subject: string, tools: Tools)
    ensures NothingFound(copy, subject, tools) <==>
      Searchable(copy, subject, tools) && Residuals(copy, subject, tools) == {}
  {
    forall p | p in copy
      ensures Residual(copy, p, copy[p], subject, tools) == Some(false) <==>
        Residual(copy, p, copy[p], subject, tools).Some? && p !in Residuals(copy, subject, tools)
    {
      SomeBool(Residual(copy, p, copy[p], subject, tools));
    }
  }

  // The answer is the one that is described, and no other is.
  lemma {:induction false} AnswerIff(
    files: Files, request: Request, x: Settings, tools: Tools, r: Result<Files, Failure>)
    requires Usable(x)
    ensures CheckedOutcome(files, request, x, tools) == r <==> IsAnswer(files, request, x, tools, r)
  {
    if SourceStayed(files, request, x, tools) {
      forall copy ensures IsRedactedCopy(files, request, x, tools, copy) <==>
        var tree := EventsRedacted(files, request, x, tools);
        tree.Ok? && Prepared(tree.value, request, x, tools) == Ok(copy)
      {
        RedactedCopyIs(files, request, x, tools, copy);
      }
      var tree := EventsRedacted(files, request, x, tools);
      if tree.Ok? && Prepared(tree.value, request, x, tools).Ok? {
        SearchedIs(Prepared(tree.value, request, x, tools).value, x.subject, tools);
        AnswerForCopy(files, request, x, tools, r, Prepared(tree.value, request, x, tools).value);
      }
    }
  }

  lemma {:induction false} AnswerForCopy(
    files: Files, request: Request, x: Settings, tools: Tools, r: Result<Files, Failure>, copy: Files)
    requires Usable(x) && SourceStayed(files, request, x, tools)
    requires forall other :: IsRedactedCopy(files, request, x, tools, other) <==> other == copy
    requires NothingFound(copy, x.subject, tools) <==>
      Searchable(copy, x.subject, tools) && Residuals(copy, x.subject, tools) == {}
    ensures Searched(copy, x.subject, tools) == r <==> IsAnswer(files, request, x, tools, r)
  {
    var searchable, clean := Searchable(copy, x.subject, tools), NothingFound(copy, x.subject, tools);
    assert IsRedactedCopy(files, request, x, tools, copy);
    AnswerForSearch(files, request, x, tools, r, copy, searchable, clean);
    SearchedByResult(copy, x.subject, tools, searchable, clean);
  }

  lemma {:induction false} SearchedByResult(copy: Files, subject: string, tools: Tools, searchable: bool, clean: bool)
    requires searchable == Searchable(copy, subject, tools)
    requires clean <==> searchable && Residuals(copy, subject, tools) == {}
    ensures Searched(copy, subject, tools) ==
      if !searchable then Error(Unsupported) else if !clean then Error(ResidualReferences) else Ok(copy)
  {
  }

  lemma {:induction false} AnswerForSearch(
    files: Files, request: Request, x: Settings, tools: Tools, r: Result<Files, Failure>, copy: Files,
    searchable: bool, clean: bool)
    requires Usable(x) && SourceStayed(files, request, x, tools)
    requires forall other :: IsRedactedCopy(files, request, x, tools, other) <==> other == copy
    requires searchable == Searchable(copy, x.subject, tools) && clean == NothingFound(copy, x.subject, tools)
    requires clean ==> searchable
    ensures IsAnswer(files, request, x, tools, r) <==>
      r == if !searchable then Error(Unsupported) else if !clean then Error(ResidualReferences) else Ok(copy)
  {
    OnlyCopy(files, request, x, tools, copy);
    VerdictByCases(r, copy, searchable, clean, r.Ok? && IsCleanCopy(files, request, x, tools, r.value));
  }

  lemma {:induction false} OnlyCopy(files: Files, request: Request, x: Settings, tools: Tools, copy: Files)
    requires Usable(x)
    requires forall other :: IsRedactedCopy(files, request, x, tools, other) <==> other == copy
    ensures NoneSearchable(files, request, x, tools) <==> !Searchable(copy, x.subject, tools)
    ensures SomeFound(files, request, x, tools) <==>
      Searchable(copy, x.subject, tools) && !NothingFound(copy, x.subject, tools)
  {
    assert IsRedactedCopy(files, request, x, tools, copy);
  }

  lemma {:induction false} VerdictByCases(
    r: Result<Files, Failure>, copy: Files, searchable: bool, clean: bool, good: bool)
    requires (clean ==> searchable) && (good <==> r.Ok? && r.value == copy && clean)
    ensures IsVerdict(r, true, good, !searchable, searchable && !clean) <==>
      r == if !searchable then Error(Unsupported) else if !clean then Error(ResidualReferences) else Ok(copy)
  {
  }

  // Event redaction keeps the set of files, and changes nothing outside event stores.
  ghost predicate EventsAreLocal(tools: Tools, eventRoots: seq<string>) {
    forall f :: tools.redactEvents(f).Some? ==> IsLocalChange(f, tools.redactEvents(f).value, eventRoots)
  }

  ghost predicate IsLocalChange(before: Files, after: Files, eventRoots: seq<string>) {
    after.Keys == before.Keys && forall p :: p in before && !InEventStore(p, eventRoots) ==> after[p] == before[p]
  }

  // The call as one function of the disk.
  ghost predicate IsOutcome(
    before: Files, after: Files, request: Request, tools: Tools, r: Result<Artifact, Failure>)
    requires Resolved(request)
  {
    match Outcome(before, request, tools)
    case Error(error) => r == Error(error) && after == before
    case Ok(copy) =>
      && r == Ok(ArtifactFor(before, copy, Check(before, request).value, tools))
      && Under(after, request.target) == copy[request.target + ARTIFACT_NAME := tools.serialize(r.value)]
  }

  lemma {:induction false} OutcomeFromChecked(
    before: Files, after: Files, request: Request, x: Settings, tools: Tools, r: Result<Artifact, Failure>)
    requires Resolved(request) && Check(before, request) == Ok(x) && Usable(x)
    requires match CheckedOutcome(before, request, x, tools)
      case Error(error) => r == Error(error) && after == before
      case Ok(copy) =>
        && r == Ok(ArtifactFor(before, copy, x, tools))
        && Under(after, x.target) == copy[x.target + ARTIFACT_NAME := tools.serialize(r.value)]
    ensures IsOutcome(before, after, request, tools, r) && IsAnswered(before, after, request, tools, r)
    ensures forall i :: 0 <= i < |CHECKS| ==>
      (r == Error(CHECKS[i]) <==> IsFirstRefusal(i, before, request))
  {
    CheckNamesFirst(before, request);
    CallIsAnswered(before, after, request, x, tools, r);
    if r.Error? {
      NoCheckAnswers(before, request, x, tools, r.error);
    }
  }

  lemma {:induction false} NoCheckAnswers(files: Files, request: Request, x: Settings, tools: Tools, error: Failure)
    requires Usable(x) && CheckedOutcome(files, request, x, tools) == Error(error)
    ensures error !in CHECKS
  {
    AnswerIff(files, request, x, tools, CheckedOutcome(files, request, x, tools));
  }

  lemma {:induction false} CallIsAnswered(
    before: Files, after: Files, request: Request, x: Settings, tools: Tools, r: Result<Artifact, Failure>)
    requires Usable(x) && IsSettings(request, x)
    requires match CheckedOutcome(before, request, x, tools)
      case Error(error) => r == Error(error) && after == before
      case Ok(copy) =>
        && r == Ok(ArtifactFor(before, copy, x, tools))
        && Under(after, x.target) == copy[x.target + ARTIFACT_NAME := tools.serialize(r.value)]
    ensures IsAnswered(before, after, request, tools, r)
  {
    AnswerIff(before, request, x, tools, CheckedOutcome(before, request, x, tools));
    assert IsAnsweredWith(before, after, request, tools, r, x);
  }

  class Disk {
    var files: Files

    method Write(root: string, path: string, content: ByteString)
      requires IsSameOrNested(path, root)
      modifies this
      ensures Without(files, root) == Without(old(files), root)
      ensures Under(files, root) == Under(old(files), root)[path := content]
    {
      files := files[path := content];
    }

    // Rewrites every file of the copy in place, up to the first that fails.
    method RewriteAll(root: string, eventRoots: seq<string>, x: Settings, codec: Codec) returns (ok: bool)
      requires Usable(x)
      modifies this
      ensures Without(files, root) == Without(old(files), root)
      ensures ok <==> Rewrites(Under(old(files), root), root, eventRoots, x, codec)
      ensures ok ==> Under(files, root) == Rewritten(Under(old(files), root), root, eventRoots, x, codec)
    {
      var tree := Under(files, root);
      var pending := tree.Keys;
      while pending != {}
        invariant pending <= tree.Keys && Without(files, root) == Without(old(files), root)
        invariant IsPartlyRewritten(tree, Under(files, root), pending, root, eventRoots, x, codec)
      {
        var path :| path in pending;
        var written := RewriteOne(root, path, tree[path], eventRoots, x, codec);
        if written.None? {
          NotRewritten(tree, root, eventRoots, x, codec, path);
          return false;
        }
        PartlyRewrittenGrows(tree, Under(files, root), pending, root, eventRoots, x, codec, path, written.value);
        Write(root, path, written.value);
        pending := pending - {path};
      }
      AllRewritten(tree, Under(files, root), root, eventRoots, x, codec);
      return true;
    }

    // `findResidualReferences`: the files that still hold the subject, or nothing when one cannot be read.
    method FindResiduals(root: string, subject: string, tools: Tools) returns (found: Option<set<string>>)
      ensures found.Some? <==> Searchable(Under(files, root), subject, tools)
      ensures found.Some? ==> found.value == Residuals(Under(files, root), subject, tools)
    {
      var tree := Under(files, root);
      var pending := tree.Keys;
      var residual: set<string> := {};
      while pending != {}
        invariant pending <= tree.Keys && residual <= tree.Keys - pending
        invariant forall p :: p in tree && p !in pending ==>
          Residual(tree, p, tree[p], subject, tools) == Some(p in residual)
      {
        var path :| path in pending;
        var hit := Residual(tree, path, tree[path], subject, tools);
        if hit.None? {
          return None;
        }
        if hit.value {
          residual := residual + {path};
        }
        pending := pending - {path};
      }
      return Some(residual);
    }

    // The copy is made and its event stores are redacted.
    method CopyAndRedactEvents(request: Request, x: Settings, tools: Tools) returns (failure: Option<Failure>)
      requires EventsAreLocal(tools, request.eventRoots) && Under(files, x.target) == map[]
      modifies this
      ensures Without(files, x.target) == old(files)
      ensures match EventsRedacted(old(files), request, x, tools)
        case Ok(tree) => failure == None && Under(files, x.target) == tree
        case Error(error) => failure == Some(error)
    {
      var before := tools.fingerprint(Under(files, x.source));
      var copied := Copied(files, x.source, x.target);
      ghost var outside := files;
      CopiedIsUnder(files, x.source, x.target);
      NothingUnder(files, x.target);
      files := files + copied;
      SplitAtRoot(files, outside, copied, x.target);
      if before != tools.fingerprint(request.sourceAfter) {
        return Some(SourceChanged);
      }
      var events := tools.redactEvents(Under(files, x.target));
      if events.None? {
        return Some(Unsupported);
      }
      assert IsLocalChange(copied, events.value, request.eventRoots);
      files := files + events.value;
      SplitAtRoot(files, outside, events.value, x.target);
      return None;
    }

    // Then its other files are redacted, and the copy is searched.
    method CopyAndRedact(request: Request, x: Settings, tools: Tools) returns (failure: Option<Failure>)
      requires EventsAreLocal(tools, request.eventRoots) && Usable(x) && Under(files, x.target) == map[]
      modifies this
      ensures Without(files, x.target) == old(files)
      ensures match CheckedOutcome(old(files), request, x, tools)
        case Ok(copy) => failure == None && Under(files, x.target) == copy
        case Error(error) => failure == Some(error)
    {
      failure := CopyAndRedactEvents(request, x, tools);
      if failure.Some? {
        return;
      }
      ghost var before := files;
      var ok := RewriteAll(x.target, request.eventRoots, x, tools.codec);
      if !ok {
        return Some(Unsupported);
      }
      var residual := FindResiduals(x.target, x.subject, tools);
      return if residual.None? then Some(Unsupported)
             else if residual.value != {} then Some(ResidualReferences)
             else None;
    }

    // The call after its checks: the copy is removed again when anything fails.
    method DeleteChecked(request: Request, x: Settings, tools: Tools) returns (r: Result<Artifact, Failure>)
      requires EventsAreLocal(tools, request.eventRoots) && Usable(x)
      requires Disjoint(x.source, x.target) && Under(files, x.target) == map[]
      modifies this
      ensures Without(files, x.target) == old(files)
      ensures match CheckedOutcome(old(files), request, x, tools)
        case Error(error) => r == Error(error) && files == old(files)
        case Ok(copy) =>
          && r == Ok(ArtifactFor(old(files), copy, x, tools))
          && Under(files, x.source) == Under(old(files), x.source)
          && Under(files, x.target) == copy[x.target + ARTIFACT_NAME := tools.serialize(r.value)]
    {
      NothingUnder(files, x.target);
      var before := tools.fingerprint(Under(files, x.source));
      var failure := CopyAndRedact(request, x, tools);
      if failure.Some? {
        RemoveTree(x.target);
        return Error(failure.value);
      }
      var artifact := Artifact(before, tools.fingerprint(Under(files, x.target)), x.tombstone);
      files := WithFile(files, x.target, ARTIFACT_NAME, tools.serialize(artifact));
      OtherRootKept(files, old(files), x.source, x.target);
      return Ok(artifact);
    }

    // `deleteLocalRuntimeTownParticipantData`. An artifact comes exactly with a published tree, and every
    // error leaves the disk as it was. A check that refuses is named, and otherwise the answer is by copy,
    // redaction and search.
    method DeleteParticipant(request: Request, tools: Tools) returns (r: Result<Artifact, Failure>)
      requires Resolved(request) && EventsAreLocal(tools, request.eventRoots)
      modifies this
      ensures IsOutcome(old(files), files, request, tools, r)
      ensures forall i :: 0 <= i < |CHECKS| ==>
        (r == Error(CHECKS[i]) <==> IsFirstRefusal(i, old(files), request))
      ensures PassesChecks(old(files), request) ==> IsAnswered(old(files), files, request, tools, r)
      ensures Without(files, request.target) == Without(old(files), request.target)
      ensures Under(files, request.source) == Under(old(files), request.source)
      ensures r.Error? ==> files == old(files)
    {
      ghost var before := files;
      CheckNamesFirst(files, request);
      var checked := Check(files, request);
      if checked.Error? {
        return Error(checked.error);
      }
      CheckedIsAccepted(files, request);
      NothingUnder(files, request.target);
      r := DeleteChecked(request, checked.value, tools);
      OutcomeFromChecked(before, files, request, checked.value, tools, r);
    }

    // `rmSync(root, { recursive: true, force: true })`
    method RemoveTree(root: string)
      modifies this
      ensures files == Without(old(files), root)
    {
      files := Without(files, root);
    }
  }

  function ArtifactFor(files: Files, copy: Files, x: Settings, tools: Tools): Artifact {
    Artifact(tools.fingerprint(Under(files, x.source)), tools.fingerprint(copy), x.tombstone)
  }

  // What is written for one file of the copy, or nothing when that fails.
  function RewriteOne(
    root: string, path: string, content: ByteString, eventRoots: seq<string>, x: Settings, codec: Codec)
    : (r: Option<ByteString>)
    requires Usable(x)
    ensures r.Some? ==> IsRewriteOf(content, r.value, root, path, eventRoots, x, codec)
    ensures r.None? ==> IsOwn(path, eventRoots) && RewriteFile(root, path, content, x, codec).None?
  {
    if IsOwn(path, eventRoots) then RewriteFile(root, path, content, x, codec) else Some(content)
  }

  predicate IsRewriteOf(
    before: ByteString, after: ByteString, root: string, path: string, eventRoots: seq<string>, x: Settings,
    codec: Codec)
    requires Usable(x)
  {
    if IsOwn(path, eventRoots) then RewriteFile(root, path, before, x, codec) == Some(after) else after == before
  }

  lemma {:induction false} NotRewritten(
    tree: Files, root: string, eventRoots: seq<string>, x: Settings, codec: Codec, p: string)
    requires Usable(x) && p in tree && IsOwn(p, eventRoots) && RewriteFile(root, p, tree[p], x, codec).None?
    ensures !Rewrites(tree, root, eventRoots, x, codec)
  {
  }

  // What has been rewritten so far.
  ghost predicate IsPartlyRewritten(
    tree: Files, now: Files, pending: set<string>, root: string, eventRoots: seq<string>, x: Settings, codec: Codec)
    requires Usable(x)
  {
    && now.Keys == tree.Keys
    && forall p :: p in tree ==>
         if p in pending then now[p] == tree[p] else IsRewriteOf(tree[p], now[p], root, p, eventRoots, x, codec)
  }

  lemma {:induction false} PartlyRewrittenGrows(
    tree: Files, now: Files, pending: set<string>, root: string, eventRoots: seq<string>, x: Settings, codec: Codec,
    p: string, written: ByteString)
    requires Usable(x) && IsPartlyRewritten(tree, now, pending, root, eventRoots, x, codec) && p in tree
    requires IsRewriteOf(tree[p], written, root, p, eventRoots, x, codec)
    ensures IsPartlyRewritten(tree, now[p := written], pending - {p}, root, eventRoots, x, codec)
  {
  }

  lemma {:induction false} AllRewritten(
    tree: Files, now: Files, root: string, eventRoots: seq<string>, x: Settings, codec: Codec)
    requires Usable(x) && IsPartlyRewritten(tree, now, {}, root, eventRoots, x, codec)
    ensures Rewrites(tree, root, eventRoots, x, codec) && now == Rewritten(tree, root, eventRoots, x, codec)
  {
    forall p | p in tree && IsOwn(p, eventRoots) ensures RewriteFile(root, p, tree[p], x, codec) == Some(now[p]) {
      assert IsRewriteOf(tree[p], now[p], root, p, eventRoots, x, codec);
    }
    forall p | p in tree ensures now[p] == Rewritten(tree, root, eventRoots, x, codec)[p] {
      assert IsRewriteOf(tree[p], now[p], root, p, eventRoots, x, codec);
    }
  }

  function WithFile(files: Files, root: string, name: string, content: ByteString): (r: Files)
    requires "/" <= name
    ensures Without(r, root) == Without(files, root)
    ensures Under(r, root) == Under(files, root)[root + name := content]
  {
    assert (root + name)[..|root| + 1] == root + SEPARATOR;
    files[root + name := content]
  }

  lemma {:induction false} NothingUnder(files: Files, root: string)
    requires Under(files, root) == map[]
    ensures Without(files, root) == files && forall p :: p in files ==> !IsSameOrNested(p, root)
  {
    forall p | p in files ensures !IsSameOrNested(p, root) {
      assert IsSameOrNested(p, root) ==> p in Under(files, root);
    }
  }

  // What happens under one root does not reach a disjoint one.
  lemma {:induction false} OtherRootKept(now: Files, before: Files, source: string, target: string)
    requires Disjoint(source, target) && Without(now, target) == Without(before, target)
    ensures Under(now, source) == Under(before, source)
  {
    forall p | IsSameOrNested(p, source) ensures !IsSameOrNested(p, target) {
      if IsSameOrNested(p, target) {
        SharedPathMeansNested(p, source, target);
      }
    }
    forall p | IsSameOrNested(p, source)
      ensures p in now <==> p in before
      ensures p in now ==> now[p] == before[p]
    {
      assert p in now <==> p in Without(now, target);
      assert p in before <==> p in Without(before, target);
    }
  }

  lemma {:induction false} CopiedIsUnder(files: Files, source: string, target: string)
    ensures forall p :: p in Copied(files, source, target) ==> IsSameOrNested(p, target)
  {
    forall p | p in Copied(files, source, target) ensures IsSameOrNested(p, target) {
      var q :| q in Under(files, source) && p == Relocate(q, source, target);
      if q == source {
        assert p == target;
      } else {
        assert q[|source|..][0] == '/';
        assert p[..|target| + 1] == target + "/";
      }
    }
  }

  // A tree put beside what lies outside the root is what lies under it.
  lemma {:induction false} SplitAtRoot(files: Files, outside: Files, tree: Files, root: string)
    requires forall p :: p in tree ==> IsSameOrNested(p, root)
    requires forall p :: p in outside ==> !IsSameOrNested(p, root)
    requires forall p :: p in files <==> p in outside || p in tree
    requires forall p :: p in outside ==> files[p] == outside[p]
    requires forall p :: p in tree ==> files[p] == tree[p]
    ensures Under(files, root) == tree && Without(files, root) == outside
  {
  }

  // ---------- what an artifact means ----------

  // The bytes the search looks at in a file: the file itself, or what it inflates to.
  ghost predicate IsSearched(path: string, content: ByteString, b: ByteString, tools: Tools) {
    if HasExtension(path, ".gz") then tools.gunzip(content) == Some(b)
    else if HasExtension(path, ".deflate") then
      exists i :: 0 <= i < |DeflateFrames.Frames(content).0|
        && tools.codec.inflate(DeflateFrames.Frames(content).0[i]) == Some(b)
    else b == content
  }

  // A frame file passes the search exactly when it is nothing but frames that inflate without the subject.
  lemma {:induction false} FrameFileIsClean(
    files: Files, path: string, content: ByteString, subject: string, tools: Tools)
    requires HasExtension(path, ".deflate") && !EndsWith(path, TRACES) && !HasExtension(path, ".gz")
    ensures Residual(files, path, content, subject, tools) == Some(false) <==>
      && DeflateFrames.Frames(content).1 == []
      && DeflateFrames.AllPassed(DeflateFrames.Frames(content).0, Encode(subject), tools.codec.inflate)
  {
    DeflateFrames.AbsenceIsReported(content, Encode(subject), tools.codec.inflate);
    DeflateFrames.OkIsDecided(DeflateFrames.Scan(content, Encode(subject), tools.codec.inflate));
  }

  lemma {:induction false} SearchedIsClean(
    files: Files, path: string, content: ByteString, b: ByteString, subject: string, tools: Tools)
    requires !EndsWith(path, TRACES) && IsSearched(path, content, b, tools)
    requires Residual(files, path, content, subject, tools) == Some(false)
    ensures !Contains(b, Encode(subject))
  {
    if !HasExtension(path, ".gz") && HasExtension(path, ".deflate") {
      FrameFileIsClean(files, path, content, subject, tools);
      var frames := DeflateFrames.Frames(content).0;
      var i :| 0 <= i < |frames| && tools.codec.inflate(frames[i]) == Some(b);
      assert DeflateFrames.Passed(frames[i], Encode(subject), tools.codec.inflate);
    }
  }

  // Every part of the file can be decoded.
  predicate Decodes(path: string, content: ByteString, tools: Tools) {
    if HasExtension(path, ".gz") then tools.gunzip(content).Some?
    else if HasExtension(path, ".deflate") then
      var (frames, torn) := DeflateFrames.Frames(content);
      torn == [] && forall i :: 0 <= i < |frames| ==> tools.codec.inflate(frames[i]).Some?
    else true
  }

  // A file outside trace storage passes exactly when all of it decodes and no decoded part holds the
  // subject; and it is found only when a part does.
  lemma {:induction false} ResidualMeans(files: Files, path: string, content: ByteString, subject: string, tools: Tools)
    requires !EndsWith(path, TRACES)
    ensures Residual(files, path, content, subject, tools) == Some(false) <==>
      Decodes(path, content, tools)
      && forall b :: IsSearched(path, content, b, tools) ==> !Contains(b, Encode(subject))
    ensures Residual(files, path, content, subject, tools) == Some(true) ==>
      exists b :: IsSearched(path, content, b, tools) && Contains(b, Encode(subject))
  {
    if HasExtension(path, ".gz") {
      if tools.gunzip(content).Some? {
        assert IsSearched(path, content, tools.gunzip(content).value, tools);
      }
    } else if HasExtension(path, ".deflate") {
      FramesMean(files, path, content, subject, tools);
    } else {
      assert IsSearched(path, content, content, tools);
    }
  }

  lemma {:induction false} FramesMean(files: Files, path: string, content: ByteString, subject: string, tools: Tools)
    requires !EndsWith(path, TRACES) && !HasExtension(path, ".gz") && HasExtension(path, ".deflate")
    ensures Residual(files, path, content, subject, tools) == Some(false) <==>
      Decodes(path, content, tools)
      && forall b :: IsSearched(path, content, b, tools) ==> !Contains(b, Encode(subject))
    ensures Residual(files, path, content, subject, tools) == Some(true) ==>
      exists b :: IsSearched(path, content, b, tools) && Contains(b, Encode(subject))
  {
    var frames, target, inflate := DeflateFrames.Frames(content).0, Encode(subject), tools.codec.inflate;
    FrameFileIsClean(files, path, content, subject, tools);
    DeflateFrames.HitIsReported(content, target, inflate);
    DeflateFrames.OkIsDecided(DeflateFrames.Scan(content, target, inflate));
    if DeflateFrames.FoundIn(frames, target, inflate) {
      var k: nat :| DeflateFrames.HitAt(frames, k, target, inflate);
      assert IsSearched(path, content, inflate(frames[k]).value, tools);
    }
    forall i | 0 <= i < |frames| && inflate(frames[i]).Some?
      ensures IsSearched(path, content, inflate(frames[i]).value, tools)
    {
      assert inflate(frames[i]) == Some(inflate(frames[i]).value);
    }
    AllFramesPass(frames, target, inflate, path, content, tools);
  }

  lemma {:induction false} AllFramesPass(
    frames: seq<ByteString>, target: ByteString, inflate: DeflateFrames.Inflate, path: string, content: ByteString,
    tools: Tools)
    requires HasExtension(path, ".deflate") && !HasExtension(path, ".gz")
    requires frames == DeflateFrames.Frames(content).0 && inflate == tools.codec.inflate
    requires forall i :: 0 <= i < |frames| && inflate(frames[i]).Some? ==>
      IsSearched(path, content, inflate(frames[i]).value, tools)
    ensures DeflateFrames.AllPassed(frames, target, inflate) <==>
      (forall i :: 0 <= i < |frames| ==> inflate(frames[i]).Some?)
      && forall b :: IsSearched(path, content, b, tools) ==> !Contains(b, target)
  {
    if DeflateFrames.AllPassed(frames, target, inflate) {
      forall b | IsSearched(path, content, b, tools) ensures !Contains(b, target) {
        var i :| 0 <= i < |frames| && inflate(frames[i]) == Some(b);
        assert DeflateFrames.Passed(frames[i], target, inflate);
      }
      forall i | 0 <= i < |frames| ensures inflate(frames[i]).Some? {
        assert DeflateFrames.Passed(frames[i], target, inflate);
      }
    }
  }

  // The searched bytes are the written form of these values.
  ghost predicate IsDocument(b: ByteString, vs: seq<Json>) {
    b == Encode(JsonLines(vs)) || (|vs| == 1 && b == Encode(JsonFile(vs[0])))
  }

  // No document of the tree, in a file, a compressed file or a frame, has a string with the name.
  ghost predicate DocumentsFree(files: Files, name: string, tools: Tools) {
    forall p, b, vs :: p in files && !EndsWith(p, TRACES) && IsSearched(p, files[p], b, tools) && IsDocument(b, vs) ==>
      !Holds(vs, name)
  }

  lemma {:induction false} UnfoundIsFree(b: ByteString, vs: seq<Json>, name: string)
    requires name != "" && Detectable(name) && IsDocument(b, vs) && !Contains(b, Encode(name))
    ensures !Holds(vs, name)
  {
    if Holds(vs, name) {
      if b == Encode(JsonLines(vs)) {
        FoundInLines(vs, name);
        ContainsIff(JsonLines(vs), name);
      } else {
        assert vs == [vs[0]];
        FoundInFile(vs[0], name);
        ContainsIff(JsonFile(vs[0]), name);
      }
    }
  }

  lemma {:induction false} NoHit(copy: Files, name: string, tools: Tools, p: string)
    requires Searched(copy, name, tools).Ok? && p in copy
    ensures Residual(copy, p, copy[p], name, tools) == Some(false)
  {
    var hit := Residual(copy, p, copy[p], name, tools);
    assert p !in Residuals(copy, name, tools);
    SomeBool(hit);
  }

  lemma {:induction false} SomeBool(hit: Option<bool>)
    ensures hit == None || hit == Some(true) || hit == Some(false)
  {
    if hit.Some? {
      assert hit == Some(hit.value);
      assert hit.value == true || hit.value == false;
    }
  }

  lemma {:induction false} SearchedTreeIsFree(copy: Files, name: string, tools: Tools)
    requires name != "" && Detectable(name) && Searched(copy, name, tools).Ok?
    ensures DocumentsFree(copy, name, tools)
  {
    forall p, b, vs | p in copy && !EndsWith(p, TRACES) && IsSearched(p, copy[p], b, tools) && IsDocument(b, vs)
      ensures !Holds(vs, name)
    {
      NoHit(copy, name, tools, p);
      SearchedIsClean(copy, p, copy[p], b, name, tools);
      UnfoundIsFree(b, vs, name);
    }
  }

  lemma {:induction false} OutcomeIsSearched(files: Files, request: Request, x: Settings, tools: Tools)
    requires Usable(x) && CheckedOutcome(files, request, x, tools).Ok?
    ensures var copy := CheckedOutcome(files, request, x, tools).value;
      Searched(copy, x.subject, tools) == Ok(copy)
  {
  }

  // An artifact is returned only for a copy in which no document has a string, text or key, with the
  // subject, provided that escaping leaves the subject readable. So a subject that redaction leaves or
  // rebuilds in a document is refused.
  lemma {:induction false} ArtifactMeansFree(files: Files, request: Request, x: Settings, tools: Tools)
    requires Usable(x) && Detectable(x.subject) && CheckedOutcome(files, request, x, tools).Ok?
    ensures DocumentsFree(CheckedOutcome(files, request, x, tools).value, x.subject, tools)
  {
    OutcomeIsSearched(files, request, x, tools);
    SearchedTreeIsFree(CheckedOutcome(files, request, x, tools).value, x.subject, tools);
  }

  lemma {:induction false} JsonIsNoFrameFile(path: string)
    requires IsJson(path)
    ensures !HasExtension(path, ".deflate") && IsRewritten(path)
  {
    assert path[|path| - 1] in "nl";
  }

  lemma {:induction false} CopiedFile(files: Files, x: Settings, p: string)
    requires p in Under(files, x.source)
    ensures Relocate(p, x.source, x.target) in Copied(files, x.source, x.target)
    ensures Copied(files, x.source, x.target)[Relocate(p, x.source, x.target)] == files[p]
  {
    RelocateAllIsInjective(files, x.source, x.target);
  }

  lemma {:induction false} EventsKeepFile(
    files: Files, request: Request, x: Settings, tools: Tools, q: string)
    requires EventsAreLocal(tools, request.eventRoots) && EventsRedacted(files, request, x, tools).Ok?
    requires q in Copied(files, x.source, x.target) && !InEventStore(q, request.eventRoots)
    ensures q in EventsRedacted(files, request, x, tools).value
    ensures EventsRedacted(files, request, x, tools).value[q] == Copied(files, x.source, x.target)[q]
  {
    var copied := Copied(files, x.source, x.target);
    assert IsLocalChange(copied, tools.redactEvents(copied).value, request.eventRoots);
  }

  lemma {:induction false} PreparedFile(tree: Files, request: Request, x: Settings, tools: Tools, q: string)
    requires Usable(x) && Prepared(tree, request, x, tools).Ok?
    requires q in tree && IsOwn(q, request.eventRoots)
    ensures q in Prepared(tree, request, x, tools).value
    ensures RewriteFile(x.target, q, tree[q], x, tools.codec) == Some(Prepared(tree, request, x, tools).value[q])
  {
  }

  lemma {:induction false} OutcomeFile(files: Files, request: Request, x: Settings, tools: Tools, p: string, q: string)
    requires Usable(x) && CheckedOutcome(files, request, x, tools).Ok?
    requires EventsAreLocal(tools, request.eventRoots) && p in Under(files, x.source)
    requires q == Relocate(p, x.source, x.target) && IsOwn(q, request.eventRoots)
    ensures q in CheckedOutcome(files, request, x, tools).value
    ensures RewriteFile(x.target, q, files[p], x, tools.codec) ==
      Some(CheckedOutcome(files, request, x, tools).value[q])
  {
    CopiedFile(files, x, p);
    EventsKeepFile(files, request, x, tools, q);
    PreparedFile(EventsRedacted(files, request, x, tools).value, request, x, tools, q);
  }

  // The published copy of a written document outside the event stores is the redacted document.
  lemma {:induction false} PublishedDocument(
    files: Files, request: Request, x: Settings, tools: Tools, p: string, q: string, vs: seq<Json>)
    requires Usable(x) && CheckedOutcome(files, request, x, tools).Ok? && Lawful(tools.codec)
    requires EventsAreLocal(tools, request.eventRoots) && p in Under(files, x.source)
    requires q == Relocate(p, x.source, x.target) && !InEventStore(q, request.eventRoots) && IsJson(q)
    requires Writable(q, vs) && files[p] == Encode(WriteDocuments(q, vs))
    requires forall i :: 0 <= i < |vs| ==> WellFormed(vs[i])
    requires Detectable(x.subject)
    requires if IsManifest(x.target, q) then TextsFree(vs, MARKER_ROOT) else Detectable(x.source)
    ensures q in CheckedOutcome(files, request, x, tools).value
    ensures CheckedOutcome(files, request, x, tools).value[q]
         == Encode(WriteDocuments(q, RedactAll(vs, SettingsFor(x, IsManifest(x.target, q)))))
  {
    JsonIsNoFrameFile(q);
    OutcomeFile(files, request, x, tools, p, q);
    DocumentIsRedacted(x.target, q, vs, x, tools.codec);
  }

  // ---------- and when it does not ----------

  const LINES_NAME := "/documents.jsonl"

  // A tree with one file of lines.
  function OneFile(root: string, content: ByteString): Files {
    map[root + LINES_NAME := content]
  }

  lemma {:induction false} LinesPath(root: string)
    ensures var path := root + LINES_NAME;
      && IsSameOrNested(path, root) && Relocate(path, root, root) == path
      && HasExtension(path, ".jsonl") && !HasExtension(path, ".gz") && !HasExtension(path, ".deflate")
      && !EndsWith(path, TRACES)
  {
    var path := root + LINES_NAME;
    assert path[..|root| + 1] == root + SEPARATOR;
    assert path[|path| - 6..] == ".jsonl" && path[|path| - 7] == 's' && path[|path| - 1] == 'l';
    assert path[|root|..] == LINES_NAME;
  }

  lemma {:induction false} OneFileCopied(source: string, target: string, content: ByteString)
    ensures Under(OneFile(source, content), source) == OneFile(source, content)
    ensures Copied(OneFile(source, content), source, target) == OneFile(target, content)
  {
    LinesPath(source);
    assert (source + LINES_NAME)[|source|..] == LINES_NAME;
    RelocateAllIsInjective(OneFile(source, content), source, target);
  }

  lemma {:induction false} OneFilePrepared(request: Request, x: Settings, tools: Tools, content: ByteString)
    requires Usable(x) && request.eventRoots == []
    requires Skipped(tools.codec.decode(content), x, IsManifest(x.target, x.target + LINES_NAME))
    ensures Prepared(OneFile(x.target, content), request, x, tools) == Ok(OneFile(x.target, content))
  {
    var path, tree := x.target + LINES_NAME, OneFile(x.target, content);
    LinesPath(x.target);
    assert RewriteFile(x.target, path, content, x, tools.codec) == Some(content);
    assert Rewrites(tree, x.target, [], x, tools.codec);
    assert Rewritten(tree, x.target, [], x, tools.codec)[path] == content;
    assert Rewritten(tree, x.target, [], x, tools.codec) == tree;
  }

  lemma {:induction false} OneFileSearched(root: string, content: ByteString, subject: string, tools: Tools)
    requires !Contains(content, Encode(subject))
    ensures Searched(OneFile(root, content), subject, tools) == Ok(OneFile(root, content))
  {
    LinesPath(root);
    var files := OneFile(root, content);
    assert Residual(files, root + LINES_NAME, content, subject, tools) == Some(false);
    assert Residuals(files, subject, tools) == {};
  }

  lemma {:induction false} NoSeparatorPrinted(name: string)
    requires '/' !in name
    ensures '/' !in PaddedPrint(name)
  {
    EscapeAddsNoSeparator(name);
  }

  lemma {:induction false} EscapeAddsNoSeparator(name: string)
    requires '/' !in name
    ensures '/' !in Escape(name)
  {
    if name != "" {
      EscapeAddsNoSeparator(name[1..]);
      EscapedCharIsNoSeparator(name[0]);
    }
  }

  lemma {:induction false} EscapedCharIsNoSeparator(c: char)
    requires c != '/'
    ensures '/' !in EscapeChar(c)
  {
  }

  // For every other subject there is a tree with one written document for which the artifact is returned
  // while a text of the copy holds the subject: the plain search passes it over, before and after.
  lemma {:induction false} MissedSubject(request: Request, x: Settings, tools: Tools, content: ByteString)
    requires Usable(x) && Trimmed(x.subject) && '/' !in x.subject && SEPARATOR <= x.source
    requires !Detectable(x.subject) && content == Encode(JsonLines([Text(Padded(x.subject))]))
    requires Lawful(tools.codec) && EventsAreLocal(tools, []) && request.eventRoots == []
    requires tools.redactEvents(OneFile(x.target, content)).Some?
    requires request.sourceAfter == OneFile(x.source, content)
    ensures CheckedOutcome(OneFile(x.source, content), request, x, tools) == Ok(OneFile(x.target, content))
    ensures !DocumentsFree(OneFile(x.target, content), x.subject, tools)
  {
    var v := UndetectedDocument(x.subject);
    var copy := OneFile(x.target, content);
    ContainsIff(JsonLines([v]), x.subject);
    PassedOver(v, x, false);
    OneFileCopied(x.source, x.target, content);
    EventsKeepOneFile(tools, copy);
    OneFilePrepared(request, x, tools, content);
    OneFileSearched(x.target, content, x.subject, tools);
    OneFileHolds(x.target, content, v, x.subject, tools);
  }

  // So the names for which an artifact always means a copy without the subject are those that escaping
  // leaves readable, and no others.
  lemma {:induction false} ArtifactMeansFreeIff(x: Settings, tools: Tools)
    requires Usable(x) && Trimmed(x.subject) && '/' !in x.subject && SEPARATOR <= x.source
    requires Lawful(tools.codec) && EventsAreLocal(tools, [])
    requires forall content :: tools.redactEvents(OneFile(x.target, content)).Some?
    ensures Detectable(x.subject) <==>
      forall files, request :: CheckedOutcome(files, request, x, tools).Ok? ==>
        DocumentsFree(CheckedOutcome(files, request, x, tools).value, x.subject, tools)
  {
    if Detectable(x.subject) {
      forall files, request | CheckedOutcome(files, request, x, tools).Ok?
        ensures DocumentsFree(CheckedOutcome(files, request, x, tools).value, x.subject, tools)
      {
        ArtifactMeansFree(files, request, x, tools);
      }
    } else {
      var content := Encode(JsonLines([Text(Padded(x.subject))]));
      var request := Request(x.source, x.target, x.subject, x.tombstone, [], OneFile(x.source, content));
      assert tools.redactEvents(OneFile(x.target, content)).Some?;
      MissedSubject(request, x, tools, content);
      assert CheckedOutcome(OneFile(x.source, content), request, x, tools).Ok?;
    }
  }

  lemma {:induction false} PassedOver(v: Json, x: Settings, manifest: bool)
    requires Usable(x) && '/' !in x.subject && SEPARATOR <= x.source
    requires v == Text(Padded(x.subject)) && !Contains(JsonLines([v]), x.subject)
    ensures Skipped(JsonLines([v]), x, manifest) && !Contains(JsonLines([v]), x.source)
  {
    PaddedPrints(x.subject);
    NoSeparatorPrinted(x.subject);
    NoRootInside(JsonLines([v]), x.source);
    FirstMeans(JsonLines([v]), x.source);
  }

  lemma {:induction false} EventsKeepOneFile(tools: Tools, copy: Files)
    requires EventsAreLocal(tools, []) && tools.redactEvents(copy).Some?
    ensures tools.redactEvents(copy) == Some(copy)
  {
    assert IsLocalChange(copy, tools.redactEvents(copy).value, []);
    assert tools.redactEvents(copy).value == copy;
  }

  lemma {:induction false} OneFileHolds(root: string, content: ByteString, v: Json, name: string, tools: Tools)
    requires content == Encode(JsonLines([v])) && Holds([v], name)
    ensures !DocumentsFree(OneFile(root, content), name, tools)
  {
    var files, path := OneFile(root, content), root + LINES_NAME;
    LinesPath(root);
    assert IsSearched(path, files[path], content, tools) && IsDocument(content, [v]);
  }
}
