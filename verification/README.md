# Verified model of the town runtime's durability, access and parsing code

The runtime of the simulated town keeps its promises in a few hard places: an append-only audit log that
authorises the deletion of real directories, a quoting lexer in front of every resident command, a summary
over an arbitrary object graph, canonical encodings behind content addresses, copy-on-write migration and
redaction of a whole data tree, a sliding-window rate limiter in two forms, a resource monitor that counts
online what a batch artifact recomputes, the refresh protocol of the web client, and the mapping from wall
clock to simulated time. This project models them in Dafny and proves what they are for.

`dafny verify dfyconfig.toml` checks everything. Code that works on expressions is modelled by functions;
code that updates fields, files or locals is modelled by classes and loops, each proved against a
specification function, and the properties are lemmas about those functions.

| module | what it models |
|---|---|
| `AuditLog`, `LogMeaning`, `AuditFile` | hash-chained lifecycle log, its folding reader and what that says of the records, its JSON-lines file |
| `Paths`, `Lifecycle`, `Retirement`, `DueRetirement` | the lifecycle as a machine over log and file tree with crashes, and the retirement loop |
| `LifecycleGuards`, `LifecycleWriters` | when the writers accept a call, and the writers |
| `CommandLine`, `CommandErrors`, `CliFlags` | the resident command lexer, its errors, and the typed flag parser |
| `TraceSummary` | the summary of LLM provider traces |
| `Wrappers`, `JsText`, `Sequences`, `Ordering` | options and results, text functions, facts about sequences, sorting |
| `CanonicalJson`, `JsonReader` | key-sorted JSON, and a reader of JSON texts |
| `Bytes`, `WorkspaceFingerprint`, `FingerprintReader` | the workspace fingerprint, and a reader of what it hashes |
| `Substring`, `Utf8`, `JsonDocuments`, `Redaction` | replacement and search in texts, bytes and printed documents; redaction of a value |
| `DeflateFrames`, `RuntimeTree`, `DocumentRewrite`, `Deletion` | the frame scan, the tree walk, redaction of files, the offline copy |
| `Relocation`, `ReferencePaths`, `Migration` | relocation of file references and the copy-on-write migration |
| `ClientStore`, `ClientEffects`, `TownClients` | the refresh protocol of the web client: the machine, what each event does, the object |
| `RateLimit`, `ResourceMonitor`, `SimulatedTime` | the remaining protocols |

## Results where the code does less than its words

- Redaction. Replacing the subject by a tombstone cleans every text exactly when the two are apart, a
  condition on the two strings alone (`Substring.ReplaceCleansIff`). Moving the source root to the target
  root can rebuild the subject, because a target root may end in a head of it; roots that do so pass all
  checks (`Redaction.MovedRootExample`), and `Redaction.RedactionCleansIff` gives the exact condition.
- Deletion. docs/DEPLOYMENT_AND_RECOVERY.md:117 promises that a successful target holds no direct reference
  to the subject. The plain searches for the subject, before the rewriting and after it, look at printed
  JSON, where characters are escaped: a subject such as `a"b` is written as `a\"b` and missed
  (`JsonDocuments.QuotedNameIsMissed`). A search of printed lines finds every string with a name exactly
  when the escaped name still holds the name (`JsonDocuments.DetectionIff`). For these subjects an artifact
  means that no document of the copy has a string with it, so a subject that redaction left or rebuilt is
  refused (`Deletion.ArtifactMeansFree`); for every other one some tree gets an artifact and keeps the
  subject (`Deletion.MissedSubject`). `Deletion.ArtifactMeansFreeIff` joins the two.
- Client store. An invalidation does not clear the society, so authentication followed by a failing society
  request shows the old society in a new town (`ClientStore.RetainedSocietyOutlivesAuthentication`); the
  documentation promises exactly this preservation of the last observation, and `ClientStore.TownIsCurrentIff`
  says when a town is entirely of its own revision. A resource load survives a partition switch made by a
  status reply within one revision, one of the cognition view as long as the simulation stays
  (`ClientStore.LoadOutlivesPartition`).
- Rate limiter. The window bound for a principal and a category holds under every policy exactly when their
  call times do not decrease (`RateLimit.BoundHoldsIff`); a wall clock that steps back breaks it.
- Simulated time. With tied wall clocks mapper and fold can disagree (`SimulatedTime.TiedClocksDisagree`).
  `SimulatedTime.AgreeIff` gives the exact condition for each event, and `SimulatedTime.AgreeEverywhereIff`
  for a whole log: no advance that shares its moment with the event before it changes the time.
- Resource monitor. The batch fails on a count that regresses, which the monitor takes as zero, so the two
  agree exactly where the batch succeeds.

## Model

| member | source | states |
|---|---|---|
| `AuditLog.VerifyRecords` | apps/server/src/localRuntimeTownParticipantDataLifecycle.ts:480-494 | the loop accepts a log exactly when it is chained, and returns it unchanged |
| `AuditLog.LastHashDeterminesLog` | apps/server/src/localRuntimeTownParticipantDataLifecycle.ts:480-501 | with a collision-free record hash, two accepted logs with the same last hash are the same log |
| `AuditLog.AppendKeepsChain` | apps/server/src/localRuntimeTownParticipantDataLifecycle.ts:431-459 | an append to an accepted log gives an accepted log |
| `AuditLog.ReadState` | apps/server/src/localRuntimeTownParticipantDataLifecycle.ts:349-403 | the loop over the records is their fold, and rejects every broken chain |
| `LogMeaning.ReadView` | apps/server/src/localRuntimeTownParticipantDataLifecycle.ts:404-428 | on any log: accepted exactly when chained and each record may follow those before it; the state and the status say what the log has records of, and the deadline is pending and least, or none when nothing is pending |
| `LogMeaning.AcceptedIff` | apps/server/src/localRuntimeTownParticipantDataLifecycle.ts:349-403 | a log is accepted exactly when each record may follow those before it, and the state shows exactly what is recorded: opening, target, activation, intents, completions |
| `LogMeaning.StatusIsLastStage` | apps/server/src/localRuntimeTownParticipantDataLifecycle.ts:404-428 | the status is the last stage that the log has a record of |
| `AuditLog.NextDeadlineIsLeast` | apps/server/src/localRuntimeTownParticipantDataLifecycle.ts:404-428 | the reported deadline is the least one of the unretired copies, absent exactly without any |
| `AuditLog.DeadlineNeverDecreases` | apps/server/src/localRuntimeTownParticipantDataLifecycle.ts:404-428 | retiring more copies never brings the deadline forward |
| `AuditLog.ReplayIsConsistent` | apps/server/src/localRuntimeTownParticipantDataLifecycle.ts:363-403 | in every accepted log retired ⊆ started ⊆ copies, nothing starts before activation, completion means all retired |
| `AuditLog.EachRecordOnce` | apps/server/src/localRuntimeTownParticipantDataLifecycle.ts:381-399 | an accepted log holds each intent, completion and final record exactly once, and none that the state does not show |
| `AuditLog.PrefixMovesForward` | apps/server/src/localRuntimeTownParticipantDataLifecycle.ts:363-413 | from any prefix of an accepted log to the whole, the state and the status only move forward |
| `AuditFile.ReadsBack` | apps/server/src/localRuntimeTownParticipantDataLifecycle.ts:451-479 | the text of a log is read back as that log |
| `AuditFile.TornAppend` | apps/server/src/localRuntimeTownParticipantDataLifecycle.ts:454-479 | an append cut after any number of characters leaves the old log, the new log, or a torn line that is rejected |
| `Paths.SharedPathMeansNested` | apps/server/src/localRuntimeTownParticipantDataLifecycle.ts:593-595 | roots that are not nested in each other share no path |
| `Paths.NestedIff` | apps/server/src/localRuntimeTownParticipantDataLifecycle.ts:593-595 | the prefix test on texts is containment of directories: the names of the parent come first |
| `Paths.ExtensionOfName` | apps/server/src/localRuntimeTownParticipantDataDeletion.ts:186-193 | a file has an extension exactly when its name ends in it and is more than it |
| `Paths.CheckDisjointRoots` | apps/server/src/localRuntimeTownParticipantDataLifecycle.ts:580-591 | the two loops accept exactly the pairwise disjoint roots |
| `Lifecycle.ReachableLogsAreAccepted` | apps/server/src/localRuntimeTownParticipantDataLifecycle.ts:109-337 | every log reachable by writers, crashes and outside changes is chained, accepted and consistent |
| `Lifecycle.RunsMoveForward` | apps/server/src/localRuntimeTownParticipantDataLifecycle.ts:349-429 | along every run the log only grows, the status only moves forward and the deadline never decreases |
| `Lifecycle.EnabledEventApplies` | apps/server/src/localRuntimeTownParticipantDataLifecycle.ts:196-334 | what a writer may append is what the reader accepts, with the state the reader computes |
| `Lifecycle.StartedHasIntent` | apps/server/src/localRuntimeTownParticipantDataLifecycle.ts:297-313 | a started copy has an earlier intent appended after activation while its tree had the registered fingerprint |
| `Lifecycle.RemovalIsAuthorized` | apps/server/src/localRuntimeTownParticipantDataLifecycle.ts:290-328 | a path is removed only below a registered, due root with an intent in the log; audit root, activated target and other copies keep theirs |
| `Lifecycle.MachineOnlyRemoves` | apps/server/src/localRuntimeTownParticipantDataLifecycle.ts:314-322 | no action rewrites or adds a path |
| `Retirement.RetirementStepKeepsReady` | apps/server/src/localRuntimeTownParticipantDataLifecycle.ts:295-328 | every retirement action keeps a world resumable, for the same copies and the same final tree |
| `Retirement.CrashedRetirementIsReady` | apps/server/src/localRuntimeTownParticipantDataLifecycle.ts:314-319 | a crash after any actions, a half-deleted tree included, leaves a resumable world |
| `Retirement.RetireAllCompletes` | apps/server/src/localRuntimeTownParticipantDataLifecycle.ts:290-336 | past every deadline a resumable world is retired completely, leaving exactly the paths outside the copies |
| `Retirement.RecoveryConverges` | apps/server/src/localRuntimeTownParticipantDataLifecycle.ts:273-337 | after any crash the re-run ends in the tree, retired set and status of one uninterrupted run, each record appended once |
| `Retirement.RetireAllSucceedsIff` | apps/server/src/localRuntimeTownParticipantDataLifecycle.ts:295-306 | a call succeeds exactly when each due copy without an intent still has its registered tree |
| `DueRetirement.CallRetiresWhatIsDue` | apps/server/src/localRuntimeTownParticipantDataLifecycle.ts:295-336 | at any time and for any mix of deadlines: a call that succeeds retires exactly the due copies, leaves nothing at their roots, keeps subtree and marks of all others, and completes exactly when all are retired; a call that fails does so up to the first copy that is missing or changed |
| `LifecycleGuards.CreateIff` | apps/server/src/localRuntimeTownParticipantDataLifecycle.ts:127-163 | a request may be registered exactly for positive periods within the integer range and deep, existing roots that share no path with each other or the audit root |
| `LifecycleGuards.CreatedIsNew` | apps/server/src/localRuntimeTownParticipantDataLifecycle.ts:149-184 | the new request holds the source with the one retention period and every backup with the other, each with its fingerprint, and nothing else has happened |
| `LifecycleGuards.PrepareIff` | apps/server/src/localRuntimeTownParticipantDataLifecycle.ts:195-221 | a target may be recorded exactly when none is yet, it shares no path with copies and audit root, and its artifact names the fingerprint of the registered source |
| `LifecycleGuards.ActivateIff` | apps/server/src/localRuntimeTownParticipantDataLifecycle.ts:233-271 | a target may be activated exactly when none is yet, it is the prepared one with the same deletion id, and health was verified before |
| `LifecycleWriters.RequestStore.AppendRecord` | apps/server/src/localRuntimeTownParticipantDataLifecycle.ts:431-459 | appends the next chained record exactly when the log is chained |
| `LifecycleWriters.RequestStore.CheckRoots` | apps/server/src/localRuntimeTownParticipantDataLifecycle.ts:546-559 | accepts exactly the narrow, existing roots disjoint from the audit root |
| `LifecycleWriters.RequestStore.CreateRequest` | apps/server/src/localRuntimeTownParticipantDataLifecycle.ts:109-184 | returns exactly when the request may be created, and then the log opens with the copies and deadlines of the request; otherwise nothing changes |
| `LifecycleWriters.RequestStore.RecordPrepared` | apps/server/src/localRuntimeTownParticipantDataLifecycle.ts:186-221 | on any log, broken ones included: returns exactly when the target may be recorded, and then the log has one more record with the artifact of the target; otherwise nothing changes |
| `LifecycleWriters.RequestStore.RecordActivated` | apps/server/src/localRuntimeTownParticipantDataLifecycle.ts:223-271 | on any log, broken ones included: returns exactly when the target may be activated, and then the log has one more record of it; otherwise nothing changes |
| `LifecycleWriters.RequestStore.RecordIntent` | apps/server/src/localRuntimeTownParticipantDataLifecycle.ts:307-312 | appends the intent before anything of the copy is removed |
| `LifecycleWriters.RequestStore.RemoveTree` | apps/server/src/localRuntimeTownParticipantDataLifecycle.ts:314-322 | deletes entry by entry with a power budget, as actions of the machine |
| `LifecycleWriters.RequestStore.FinishOne` | apps/server/src/localRuntimeTownParticipantDataLifecycle.ts:314-327 | a run of the machine that ends in the specified state or was cut off |
| `LifecycleWriters.RequestStore.RetireOne` | apps/server/src/localRuntimeTownParticipantDataLifecycle.ts:295-328 | one iteration, with all its error branches, is the specified one or a prefix of it |
| `LifecycleWriters.RequestStore.RetireDue` | apps/server/src/localRuntimeTownParticipantDataLifecycle.ts:273-337 | a call that is not cut off returns exactly when it may be made and every copy to be started has its registered tree, and has then retired exactly the due copies; stopped anywhere it is a legal run; on a torn or tampered log it throws and removes nothing |
| `CommandLine.ParseResidentCommand` | apps/residents/src/commandLine.ts:2-50 | the index loop computes the automaton's result, errors included |
| `CommandLine.LexerDecidesGrammar` | apps/residents/src/commandLine.ts:5-47 | the lexer returns words exactly for the sentences of the quoting grammar, with their meaning |
| `CommandLine.SentencesAreAccepted` | apps/residents/src/commandLine.ts:5-47 | every sentence is lexed into the words it spells |
| `CommandLine.BlankSeparates` | apps/residents/src/commandLine.ts:33-45 | lexing two pieces with a blank between them concatenates lexing each |
| `CommandLine.QuotingRoundTrip` | apps/residents/src/residentSkill.ts:36-37 | printing words in single or double quotes and parsing gives them back exactly within the size limit and without NUL |
| `CommandErrors.ParseIff` | apps/residents/src/commandLine.ts:2-50 | a command is parsed exactly when it is short enough, free of NUL and a sentence that begins with `town`, and gives the other words |
| `CommandErrors.RefusedFor` | apps/residents/src/commandLine.ts:3-49 | every error has its reason in the command, behind well-formed tokens |
| `CliFlags.ParseCliFlags` | apps/residents/src/residentCli.ts:25-84 | the loop over flags computes the parser function, errors included |
| `CliFlags.FlagNameIsInjective` | apps/residents/src/cliCatalog.ts:43-44 | kebab naming is injective on names without hyphens |
| `CliFlags.FlagSpellsName` | apps/residents/src/cliCatalog.ts:43-44 | a flag has no capital letter and spells its name |
| `CliFlags.RestoredArrays` | apps/residents/src/residentCli.ts:78-80 | exactly the omitted required arrays are restored as empty |
| `CliFlags.PrintedFlagsAreRead` | apps/residents/src/residentCli.ts:33-73 | printed flags in any order are accepted exactly when compatible, and then mean what was printed |
| `CliFlags.AcceptedFlagsArePrinted` | apps/residents/src/residentCli.ts:33-73 | every accepted flag list is the print of some items |
| `CliFlags.RefusedFlags` | apps/residents/src/residentCli.ts:33-73 | a list is refused at its first flag that does not fit those before it, and for its own reason |
| `CliFlags.NumeralIff` | apps/residents/src/residentCli.ts:67-70 | the accepted numerals are the spellings of numbers, and no other texts |
| `CliFlags.FlagsRoundTrip` | apps/residents/src/residentCli.ts:25-84 | parsing any flags that present arguments gives the arguments, array order kept, required arrays restored |
| `CliFlags.StdinRoundTrip` | apps/residents/src/residentCli.ts:74-83 | with `--content-stdin` among flags that present the other arguments, the content is exactly the text read, required arrays restored; without a reader the command fails; the validator decides the rest |
| `CliFlags.ContentRoundTrip` | apps/residents/src/residentCli.ts:33-84 | the same from arguments printed in any order, with the flag anywhere among them |
| `CliFlags.PrintedArgsPresent` | apps/residents/src/residentCli.ts:33-73 | arguments that fit the schema, printed in any order of their names, are compatible flags that mean these arguments |
| `CliFlags.ArgumentsRoundTrip` | apps/residents/src/residentCli.ts:25-84 | arguments printed as flags in any order of their names are parsed back, required arrays restored |
| `CliFlags.CommandRoundTrip` | apps/residents/src/residentCli.ts:25-84 | quoting, lexing and flag parsing together give the presented arguments back from one command string |
| `CliFlags.ArgumentsCommandRoundTrip` | apps/residents/src/residentCli.ts:25-84 | from arguments to one quoted command string, through lexer and flag parser, and back |
| `TraceSummary.Summary.AddUsage` | apps/server/src/localRuntimeTownProductionSlo.ts:578-597 | adds all four figures or none |
| `TraceSummary.Summary.CountObject` | apps/server/src/localRuntimeTownProductionSlo.ts:552-570 | adds exactly the contribution of one object |
| `TraceSummary.Summary.VisitProviderTrace` | apps/server/src/localRuntimeTownProductionSlo.ts:539-576 | terminates on cycles; sums exactly the newly visited objects, all reachable, and leaves no child unvisited |
| `TraceSummary.Summarize` | apps/server/src/localRuntimeTownProductionSlo.ts:204-231 | the summary is the sum over the reachable objects, each once: its counts are the numbers of requests and failures among them |
| `TraceSummary.SumCounts` | apps/server/src/localRuntimeTownProductionSlo.ts:552-570 | the totals of a set of objects are the numbers of its requests and of its failed or fallback requests, and the providers and models named by requests |
| `TraceSummary.UsageMeans` | apps/server/src/localRuntimeTownProductionSlo.ts:578-597 | a request with a whole usage adds its four figures |
| `TraceSummary.NoUsageMeans` | apps/server/src/localRuntimeTownProductionSlo.ts:578-597 | any other object adds no tokens and no cost |
| `TraceSummary.RootOrderIsIrrelevant` | apps/server/src/localRuntimeTownProductionSlo.ts:217-220 | order and repetition of roots do not matter |
| `TraceSummary.KeyOrderIsIrrelevant` | apps/server/src/localRuntimeTownProductionSlo.ts:571-575 | the order of object keys does not matter |
| `TraceSummary.FailuresNeverExceedRequests` | apps/server/src/localRuntimeTownProductionSlo.ts:553-562 | failures ≤ requests ≤ objects counted |
| `CanonicalJson.PrintUnique` | apps/server/src/localRuntimeTownDataMigration.ts:591-603 | a printed value is recognised at the front of any text that goes on with a delimiter |
| `CanonicalJson.SamePrints` | apps/server/src/localRuntimeTownPaperMarketCollectionResourceEvidence.ts:602-610 | values that differ only in key order print alike |
| `CanonicalJson.PrintsAlikeIffSame` | apps/server/src/localRuntimeTownDataMigration.ts:591-603 | equal prints mean equal values, objects as unordered maps |
| `CanonicalJson.AddressIdentifiesPayload` | apps/server/src/localRuntimeTownDataMigration.ts:585-589 | a content address identifies its payload up to key order |
| `JsonReader.ReaderUndoesPrinter` | apps/server/src/localRuntimeTownParticipantDataDeletion.ts:208-213 | an independent reader of JSON texts gives back every printed value, on one line and indented |
| `JsonReader.CanonicalIsRead` | apps/server/src/localRuntimeTownDataMigration.ts:591-603 | the canonical print is read as the same value, with the keys of every object in ascending order |
| `Bytes.LengthPrefixedUnique` | apps/server/src/localRuntimeTownSourceRevision.ts:173-178 | a length-prefixed value is recognised at the front of any stream |
| `WorkspaceFingerprint.SplitNullTerminated` | apps/server/src/localRuntimeTownSourceRevision.ts:147-163 | the index loop computes the chunk fold |
| `WorkspaceFingerprint.SplitUndoesJoin` | apps/server/src/localRuntimeTownSourceRevision.ts:147-163 | splitting inverts NUL-joining of non-empty NUL-free paths |
| `WorkspaceFingerprint.SplitYieldsPaths` | apps/server/src/localRuntimeTownSourceRevision.ts:147-163 | accepted exactly when empty or NUL-terminated; all parts are paths |
| `WorkspaceFingerprint.StreamUnique` | apps/server/src/localRuntimeTownSourceRevision.ts:111-114 | the stream of entries decodes uniquely |
| `WorkspaceFingerprint.HashEntries` | apps/server/src/localRuntimeTownSourceRevision.ts:83-115 | the loop feeds the hash the policy line and the stream of all entries, or fails on the first bad path |
| `WorkspaceFingerprint.CreateFingerprint` | apps/server/src/localRuntimeTownSourceRevision.ts:75-121 | the fingerprint is the hash of the sorted stream, with its errors |
| `FingerprintReader.StreamIsRead` | apps/server/src/localRuntimeTownSourceRevision.ts:111-114 | an independent reader gives back the entries of the stream |
| `FingerprintReader.HashedIsRecord` | apps/server/src/localRuntimeTownSourceRevision.ts:75-115 | the hashed bytes are the policy line and one entry for each listed path in byte order, each with the kind, bit and digest of what is there |
| `FingerprintReader.HashedIff` | apps/server/src/localRuntimeTownSourceRevision.ts:83-110 | there is a fingerprint exactly when the listing is terminated and each path is text and names a file, a link or nothing; an error names its path |
| `WorkspaceFingerprint.FingerprintDeterminesWorkspace` | apps/server/src/localRuntimeTownSourceRevision.ts:75-121 | unless two compared values collide, fingerprints are equal exactly for the same paths, in any order, with the same kinds, bits and contents |
| `Substring.JoinUndoesSplit` | apps/server/src/localRuntimeTownParticipantDataDeletion.ts:281-285 | joining the parts with the separator gives the text back |
| `Substring.PartsAreClean` | apps/server/src/localRuntimeTownParticipantDataDeletion.ts:281-285 | no part of a split holds the separator |
| `Substring.CountIsMaximum` | apps/server/src/localRuntimeTownParticipantDataDeletion.ts:282-283 | the number of parts minus one is the largest number of disjoint occurrences |
| `Substring.ReplaceCleansIff` | apps/server/src/localRuntimeTownParticipantDataDeletion.ts:281-285 | replacement removes the target from every text exactly when target and replacement are apart |
| `Redaction.RedactValueIsFaithful` | apps/server/src/localRuntimeTownParticipantDataDeletion.ts:269-312 | shape, keys and other leaves stay, each text is redacted, the count is the number of occurrences |
| `Redaction.ShapeAndTextsDetermine` | apps/server/src/localRuntimeTownParticipantDataDeletion.ts:269-312 | shape and texts determine a value, so the clause above fixes the redacted value |
| `Redaction.RedactTextIs` | apps/server/src/localRuntimeTownParticipantDataDeletion.ts:278-290 | the guarded splits are two replacements, subject first, and only the first is counted |
| `Redaction.RedactedTextIsClean` | apps/server/src/localRuntimeTownParticipantDataDeletion.ts:278-290 | leaves are clean when neither tombstone nor target root can rebuild the subject |
| `Redaction.RedactionCleansIff` | apps/server/src/localRuntimeTownParticipantDataDeletion.ts:80-95 | this condition is exact, when the first character of the source root is not in the subject and the tombstone neither holds the source root nor ends in a head of it |
| `Redaction.MovedRootExample` | apps/server/src/localRuntimeTownParticipantDataDeletion.ts:286-288 | accepted roots under which a text free of the subject comes to hold it |
| `JsonDocuments.FoundInFile` | apps/server/src/localRuntimeTownParticipantDataDeletion.ts:208-213 | the text of a written file holds every name that one of its strings holds and escaping leaves readable |
| `JsonDocuments.FoundInLines` | apps/server/src/localRuntimeTownParticipantDataDeletion.ts:208-213 | the same for written lines |
| `JsonDocuments.DetectionIff` | apps/server/src/localRuntimeTownParticipantDataDeletion.ts:194-199 | a search of written lines finds every string with the name exactly when escaping leaves the name readable |
| `JsonDocuments.QuotedNameIsMissed` | apps/server/src/localRuntimeTownParticipantDataDeletion.ts:194-199 | a name with a quotation mark stands in a written text and is not found |
| `JsonDocuments.ParseLinesUndoes` | apps/server/src/localRuntimeTownParticipantDataDeletion.ts:445-449 | written lines are trimmed, split and parsed back |
| `Utf8.ContainsIff` | apps/server/src/localRuntimeTownParticipantDataDeletion.ts:314-342 | the byte search for an encoded name finds exactly the texts that hold it |
| `DocumentRewrite.DocumentIsRedacted` | apps/server/src/localRuntimeTownParticipantDataDeletion.ts:184-225 | the copy of a written `.json` or `.jsonl` document is the redacted document, whether it was rewritten or passed over by the plain search, for subjects and roots that escaping leaves readable |
| `DocumentRewrite.RewriteTextFailsIff` | apps/server/src/localRuntimeTownParticipantDataDeletion.ts:190-207 | a document with neither name keeps every byte; any other is rewritten, unless it is malformed, and then the call fails |
| `DocumentRewrite.FramesAreRedacted` | apps/server/src/localRuntimeTownParticipantDataDeletion.ts:228-267 | a written frame file becomes the frames of the redacted values, and fails only when one of these cannot be written |
| `DocumentRewrite.RedactedDocumentsAreClean` | apps/server/src/localRuntimeTownParticipantDataDeletion.ts:269-312 | no text of the redacted documents holds the subject when neither tombstone nor target root can rebuild it |
| `DeflateFrames.DeflateFramesContain` | apps/server/src/localRuntimeTownParticipantDataDeletion.ts:344-359 | the offset loop computes the frame-by-frame scan |
| `DeflateFrames.FramesRebuild` | apps/server/src/localRuntimeTownParticipantDataDeletion.ts:346-357 | the frames read off any content and the rest behind them rebuild it |
| `DeflateFrames.FramesUndoStream` | apps/server/src/localRuntimeTownParticipantDataDeletion.ts:346-357 | a written stream is read back frame by frame, torn bytes apart |
| `DeflateFrames.CutFrameIsTorn` | apps/server/src/localRuntimeTownParticipantDataDeletion.ts:347-354 | a frame cut anywhere is no frame |
| `DeflateFrames.HitIsReported` | apps/server/src/localRuntimeTownParticipantDataDeletion.ts:344-359 | on any content a hit is reported exactly for the first readable frame with the target |
| `DeflateFrames.AbsenceIsReported` | apps/server/src/localRuntimeTownParticipantDataDeletion.ts:344-359 | absence is reported exactly when the content is all frames, each inflates and none holds the target |
| `DeflateFrames.ScanDecides` | apps/server/src/localRuntimeTownParticipantDataDeletion.ts:344-359 | on inflating frames the scan decides membership per frame and refuses a torn rest |
| `RuntimeTree.WalkRuntimeTree` | apps/server/src/localRuntimeTownParticipantDataDeletion.ts:403-428 | the stack walk visits the tree in preorder exactly when it holds only files and directories |
| `RuntimeTree.ListingIsComplete` | apps/server/src/localRuntimeTownParticipantDataDeletion.ts:387-428 | every file and directory reachable by names is listed under its path |
| `RuntimeTree.ListingIsSound` | apps/server/src/localRuntimeTownParticipantDataDeletion.ts:403-428 | nothing is listed that names do not lead to |
| `RuntimeTree.ListingIsCounted` | apps/server/src/localRuntimeTownParticipantDataDeletion.ts:403-428 | every file and directory is listed once |
| `Deletion.Disk.RewriteAll` | apps/server/src/localRuntimeTownParticipantDataDeletion.ts:176-226 | rewrites every JSON and frame file outside event stores as redacted documents and touches nothing else; fails exactly when one of them cannot be rewritten |
| `Deletion.Disk.FindResiduals` | apps/server/src/localRuntimeTownParticipantDataDeletion.ts:314-342 | finds exactly the files whose decoded bytes hold the subject; fails exactly when one cannot be decoded |
| `Deletion.Disk.CopyAndRedact` | apps/server/src/localRuntimeTownParticipantDataDeletion.ts:112-143 | everything outside the copy stays; the copy is the relocated source, its events and then its documents redacted, or the failure names the first step that refused |
| `Deletion.Disk.DeleteParticipant` | apps/server/src/localRuntimeTownParticipantDataDeletion.ts:70-174 | said of arguments and disk: the first check that refuses is named, exactly; otherwise an artifact exactly for a redacted copy in which nothing is found, published as it is with the artifact beside it; the source and all else stay; an error leaves the disk as it was |
| `Deletion.CheckNamesFirst` | apps/server/src/localRuntimeTownParticipantDataDeletion.ts:77-110 | a check answers exactly for its own reason unless an earlier one does: blank subject, separator, shared roots, subject in a root, no file at the source, a file at the target, blank or equal tombstone |
| `Deletion.AnswerIff` | apps/server/src/localRuntimeTownParticipantDataDeletion.ts:112-160 | checked arguments are answered by the one copy that is redacted and searched: an artifact exactly when the source stayed, every file could be rewritten and searched, and nothing was found |
| `Deletion.ResidualMeans` | apps/server/src/localRuntimeTownParticipantDataDeletion.ts:314-342 | a file passes the search exactly when all of it decodes and no part holds the subject, and is found only when a part does |
| `Deletion.CheckedIsAccepted` | apps/server/src/localRuntimeTownParticipantDataDeletion.ts:77-110 | arguments that pass the checks meet what the redaction theorems ask of subject, tombstone and roots |
| `Deletion.OtherRootKept` | apps/server/src/localRuntimeTownParticipantDataDeletion.ts:83-89 | what happens under the target root does not reach a disjoint source root |
| `Deletion.FrameFileIsClean` | apps/server/src/localRuntimeTownParticipantDataDeletion.ts:335-338 | a frame file passes the search exactly when it is only clean frames |
| `Deletion.ArtifactMeansFree` | apps/server/src/localRuntimeTownParticipantDataDeletion.ts:112-143 | an artifact for a subject that escaping leaves readable means that no document of the copy, in a file, a compressed file or a frame, has a text or key with it |
| `Deletion.PublishedDocument` | apps/server/src/localRuntimeTownParticipantDataDeletion.ts:112-143 | the published copy of each written document outside the event stores is the redacted document |
| `Deletion.MissedSubject` | apps/server/src/localRuntimeTownParticipantDataDeletion.ts:184-225 | for every other subject a tree with one document gets an artifact although a text of the copy holds the subject |
| `Deletion.ArtifactMeansFreeIff` | apps/server/src/localRuntimeTownParticipantDataDeletion.ts:112-143 | the subjects for which an artifact always means a free copy are exactly those that escaping leaves readable |
| `Relocation.RelocatedIsCounterpart` | apps/server/src/localRuntimeTownDataMigration.ts:393-415 | accepted exactly strictly below the root, and then moved to the same place below the other root |
| `Relocation.RelocateTwice` | apps/server/src/localRuntimeTownDataMigration.ts:393-415 | going through an intermediate root is going directly, errors included |
| `Relocation.RelocateBack` | apps/server/src/localRuntimeTownDataMigration.ts:393-415 | relocating there and back gives the same path |
| `Relocation.RelocatedTwice` | apps/server/src/localRuntimeTownDataMigration.ts:255-332 | two passes over a staged tree are one direct relocation of all its references |
| `ReferencePaths.ReferenceFileIff` | apps/server/src/localRuntimeTownDataMigration.ts:258-266 | the reference files by the text of their paths |
| `Migration.PublishedReferences` | apps/server/src/localRuntimeTownDataMigration.ts:124-181 | each reference file of the published tree is that of the source, relocated from source to target |
| `Migration.CheckpointCounterparts` | apps/server/src/localRuntimeTownDataMigration.ts:271-289 | each checkpoint reference points to the target-rooted counterpart of the original |
| `Migration.MarkerAndArtifactStay` | apps/server/src/localRuntimeTownDataMigration.ts:167-181 | the published tree holds the marker and the artifact under the artifact's own id |
| `Migration.PublishedIsRecognised` | apps/server/src/localRuntimeTownDataMigration.ts:201-235 | a published, verified tree is recognised with the same artifact id |
| `Migration.SeparateStaging` | apps/server/src/localRuntimeTownDataMigration.ts:108-111 | a new staging directory beside the target is neither above nor below the source |
| `Migration.SuccessExcludesFailure` | apps/server/src/localRuntimeTownDataMigration.ts:113-199 | no run can both succeed and have a reason to fail |
| `Migration.RunSucceeds` | apps/server/src/localRuntimeTownDataMigration.ts:113-199 | with power for all its writes a run that can succeed does |
| `Migration.ExistingIff` | apps/server/src/localRuntimeTownDataMigration.ts:201-235 | an existing target is returned exactly when it is registered between these roots and verifies, and otherwise refused for its own reason |
| `Migration.Runtime.CopyTree` | apps/server/src/localRuntimeTownDataMigration.ts:113-118 | copies the tree, or is cut off having touched nothing else |
| `Migration.Runtime.RelocateReferences` | apps/server/src/localRuntimeTownDataMigration.ts:255-332 | relocates every reference, or fails exactly when one cannot be relocated |
| `Migration.Runtime.Publish` | apps/server/src/localRuntimeTownDataMigration.ts:181-187 | the target appears whole by one rename, and is withdrawn when it does not verify |
| `Migration.Runtime.Migrate` | apps/server/src/localRuntimeTownDataMigration.ts:83-199 | each answer has its condition on disk, tools and power: done exactly by a run whose references relocate, checkpoints load, stores upgrade, source stayed and result verifies, refused for the step that fails; stopped after any write the source is unchanged and the target absent or complete; an error leaves the disk as it was |
| `Migration.MigrateTwice` | apps/server/src/localRuntimeTownDataMigration.ts:100-106 | a run after any other run: a finished migration is returned as it is, and the target is absent or complete |
| `RateLimit.FileLimiter.Consume` | apps/server/src/localRuntimeTownParticipantAccess.ts:169-207 | the ledger loop replies as the specification and appends exactly on acceptance |
| `RateLimit.MemoryLimiter.Consume` | apps/api/src/participantAccess.ts:378-404 | the pruning port replies as the specification on any limit and stores the pruned list exactly on acceptance |
| `RateLimit.KeyIsInjective` | apps/api/src/participantAccess.ts:382 | the joined key tells subject and category apart |
| `RateLimit.WindowBound` | apps/server/src/localRuntimeTownParticipantAccess.ts:158-207 | every half-open window holds at most the limit of accepted calls of a principal in a category whose own calls come in order |
| `RateLimit.RetryDelayIsExact` | apps/server/src/localRuntimeTownParticipantAccess.ts:190-198 | with no call of the same principal and category in between, a retry is accepted exactly from the returned delay on |
| `RateLimit.RemainingIsExact` | apps/server/src/localRuntimeTownParticipantAccess.ts:190-207 | an accepted call leaves room for exactly as many more at the same time as it says |
| `RateLimit.RepliesAgree` | apps/api/src/participantAccess.ts:378-404 | for a principal and category whose calls come in order the pruned port gives the ledger's status, remaining count and delay |
| `RateLimit.MemoryAgreesWithLedger` | apps/api/src/participantAccess.ts:383-397 | for such a principal the pruned list and the ledger hold the same times within every later window |
| `RateLimit.StepBackBreaksBound` | apps/server/src/localRuntimeTownParticipantAccess.ts:158-207 | for any calls that step back there is a valid policy and a window in which more calls are accepted than it allows |
| `RateLimit.BoundHoldsIff` | apps/server/src/localRuntimeTownParticipantAccess.ts:158-207 | the bound holds for all policies and windows exactly when the calls of that principal and category come in order |
| `SimulatedTime.Normalize` | apps/server/src/localRuntimeTownPaperEvidenceSource.ts:124-135 | each event gets the folded time up to and including itself |
| `SimulatedTime.MapTime` | apps/server/src/localRuntimeTownPaperEvidenceSource.ts:102-121 | the sample loop computes the lookup in the sorted samples |
| `SimulatedTime.MapperIsFold` | apps/server/src/localRuntimeTownPaperEvidenceSource.ts:98-122 | on ordered clocks the mapper at a time is the fold up to the last event at or before it |
| `SimulatedTime.AgreeIff` | apps/server/src/localRuntimeTownPaperEvidenceSource.ts:98-135 | mapper and fold agree on an event exactly when no later advance has its moment, or the last of those sets the time already in force |
| `SimulatedTime.AgreeEverywhereIff` | apps/server/src/localRuntimeTownPaperEvidenceSource.ts:98-135 | they agree on all events exactly when no advance that shares its moment with the event before it changes the time |
| `SimulatedTime.StrictClocksAgree` | apps/server/src/localRuntimeTownPaperEvidenceSource.ts:98-135 | with strictly increasing clocks they agree on every event |
| `SimulatedTime.TiedClocksDisagree` | apps/server/src/localRuntimeTownPaperEvidenceSource.ts:98-135 | two advances at one moment make them differ |
| `SimulatedTime.MapperIsMonotone` | apps/server/src/localRuntimeTownPaperEvidenceSource.ts:112-121 | the mapper is monotone when simulated time advances |
| `ResourceMonitor.Monitor.OnChildCompleted` | apps/server/src/localRuntimeTownPaperMarketCollectionResourceEvidence.ts:184-197 | the observer takes the specified step, and returns early on a result id it has seen |
| `ResourceMonitor.CreateArtifact` | apps/server/src/localRuntimeTownPaperMarketCollectionResourceEvidence.ts:283-332 | on results in any order the batch computes the specified tally, and fails exactly on regressions and duplicate ids |
| `ResourceMonitor.TallySucceedsIff` | apps/server/src/localRuntimeTownPaperMarketCollectionResourceEvidence.ts:307-319 | the batch succeeds exactly when every shard's cumulative counts do not decrease |
| `ResourceMonitor.GainsTelescope` | apps/server/src/localRuntimeTownPaperMarketCollectionResourceEvidence.ts:307-332 | the trade total is the sum over shards of last minus initial count |
| `ResourceMonitor.OnlineAgreesWithBatch` | apps/server/src/localRuntimeTownPaperMarketCollectionResourceEvidence.ts:184-332 | for every interleaving with per-shard epoch order, monitor and batch report the same cycles and trades |
| `ResourceMonitor.ObservedNeverDecreases` | apps/server/src/localRuntimeTownPaperMarketCollectionResourceEvidence.ts:184-197 | a count that goes down and a repeated result add nothing |
| `ResourceMonitor.InitialCountsAgree` | apps/server/src/localRuntimeTownPaperMarketCollectionResourceEvidence.ts:491-511 | for epochs listed in order, both start from the same counts |
| `ResourceMonitor.ProjectionsAgree` | apps/worker/src/paperMarketCollection.ts:649-652 | the ledger's sorted projection is listed in order, so both always start from the same counts |
| `ClientStore.ReachableIsSound` | apps/web/client/store.ts:116-247 | at every point of every run at most one refresh body is under way, and what is shown fits view, selection and simulation |
| `ClientStore.StepWritesCurrent` | apps/web/client/store.ts:116-247 | every part of the snapshot an event changes was requested in the revision in force or is cleared |
| `ClientStore.OldRepliesShowNothing` | apps/web/client/store.ts:145-187 | a reply requested before an invalidation changes nothing that is shown |
| `ClientStore.SwitchShowsOnlyNew` | apps/web/client/store.ts:264-281 | after a partition switch nothing requested before it is ever shown again |
| `ClientStore.TownIsCurrentIff` | apps/web/client/store.ts:167-184 | when a published town rests only on replies of its own revision |
| `ClientStore.RetainedSocietyOutlivesAuthentication` | apps/web/client/store.ts:314-327 | a run in which a society from before authentication is shown in a town from after it |
| `ClientStore.RunKeepsPlace` | apps/web/client/store.ts:201-241 | while the partition in force stays in the replied lists, everything pending or shown of this revision belongs to it |
| `ClientStore.StatusStaysIff` | apps/web/client/store.ts:146-160 | a status reply keeps the partition exactly when it is out of force, lists it, or offers none |
| `ClientStore.LoadOutlivesPartition` | apps/web/client/store.ts:146-166 | a pending load is still published after a status reply, unless it is of the cognition view and the simulation changed; it is of the shown partition exactly when the reply left the client there |
| `ClientStore.RequestsCoalesce` | apps/web/client/store.ts:117-121 | over any run without replies no body starts and any number of requests leaves one queued; the reply that ends the body starts exactly one for all of them |
| `ClientStore.OwedRefreshStarts` | apps/web/client/store.ts:192-199 | a queued request stays owed at every later point, and its body starts within the replies the running one waits for |
| `ClientStore.RefreshIsNotLost` | apps/web/client/store.ts:116-199 | a requested refresh is followed by a later start, or is still queued behind a running body, unless destroyed |
| `ClientEffects.SwitchMeans` | apps/web/client/store.ts:264-281 | the client goes to the first listed partition with the joined name, in a new revision with nothing shown and a refresh requested; a name that is not listed does nothing |
| `ClientEffects.StatusMeans` | apps/web/client/store.ts:142-162 | a reply in force adopts the partition if it is listed and the first one otherwise, and clears what is shown exactly when the simulation changes |
| `ClientEffects.SelectionMeans` | apps/web/client/store.ts:253-263 | an agent of another partition takes the client to that key of the same simulation, in a new revision; otherwise resources are requested exactly in the cognition view |
| `TownClients.TownClient.Refresh` | apps/web/client/store.ts:116-135 | a refresh is owed from here on, at most one body starts, and the client stays sound; the new state is the machine's |
| `TownClients.TownClient.Finish` | apps/web/client/store.ts:192-199 | a body starts exactly when a request was queued, and nothing shown changes but the loading flag; the client stays sound |
| `TownClients.TownClient.OnStatusReply` | apps/web/client/store.ts:136-166 | everything written is of the revision in force; the partition is the one in force if listed, else the first, and what is shown is cleared exactly when the simulation changes; a reply out of force ends the body |
| `TownClients.TownClient.OnCityReply` | apps/web/client/store.ts:167-187 | a town current in revision and partition is published exactly when the reply is in force, with what was shown in place of what did not come, and the resources of the view are awaited |
| `TownClients.TownClient.PublishLoad` | apps/web/client/store.ts:232-240 | resources are shown exactly when requested in this revision, not cancelled, for the shown view and agent |
| `TownClients.TownClient.BumpRevision` | apps/web/client/store.ts:242-247 | no load that is pending may publish any more |
| `TownClients.TownClient.ShowView` | apps/web/client/store.ts:248-252 | nothing of another view stays shown, and its resources are requested exactly when a partition is known; no body starts |
| `TownClients.TownClient.Choose` | apps/web/client/store.ts:253-263 | a new revision with a refresh owed exactly for an agent owned elsewhere, in the partition of the owner; the resources shown so far are gone |
| `TownClients.TownClient.SwitchPartition` | apps/web/client/store.ts:264-281 | the first listed partition with the name, with nothing shown from before and a refresh owed; for a name that is not listed nothing changes |
| `TownClients.TownClient.Close` | apps/web/client/store.ts:351-358 | nothing may publish any more |

## Left out

- Characters are Unicode scalars: UTF-16 units (command size limit, lone surrogates, key order above the basic plane) are not modelled.
- Path resolution happens before the model; paths are resolved and POSIX-style.
- SHA-256, HMAC, inflate, gunzip, UUIDs, clocks, JSON decoding of records and documents, and file URLs are parameters; what a theorem needs of them is a precondition.
- The event-store redaction and upgrade, the projection stores, trace storage and argument validation are parameters with the contracts stated where they are used.
- LogMeaning.ReadView: keeps the sorted lists of started and retired copy ids as sets.
- LifecycleWriters.RequestStore.CreateRequest: other requests that register the same copies are only covered as outside changes of the tree.
- LifecycleWriters.RequestStore.RetireDue: a call that is cut off promises a legal run, not how far it came; a tree with entries below a copy root that is itself missing keeps them.
- File permissions, fsync, and the symbolic-link refusal inside tree fingerprints.
- CliFlags.ArgumentsRoundTrip: keeps numeric arguments as their texts, because converting them is floating-point; names found on the object prototype are not modelled.
- CanonicalJson.PrintsAlikeIffSame: numbers are integers (in JsonReader too); negative zero, non-finite numbers and `undefined` are not modelled.
- JsonReader.ReaderUndoesPrinter: the reader knows no fractions and no surrogate pairs, because no printed value of the model has them.
- TraceSummary.Summarize: returns the sets of provider ids and models instead of sorted lists, and figures are integers.
- Substring.CountIsMaximum: an empty subject is refused by the caller, so splitting on an empty separator is not modelled.
- Redaction.RedactionCleansIff: exact only for a source root whose first character is not in the subject and a tombstone in which the root cannot begin; cleanness itself (Redaction.RedactedTextIsClean) needs neither.
- JsonDocuments.DetectionIff: about texts as `JSON.stringify` writes them; a document that spells characters by other escapes is parsed and redacted alike when it is rewritten, but nothing is claimed of the plain search in it.
- Deletion.ArtifactMeansFree: says nothing of trace storage and of the binary parts of event stores, which are searched and redacted by parameters.
- Deletion.Disk.DeleteParticipant: event stores are redacted by one parameter with the roots given, a concurrent writer appears only as the source tree read again, and the artifact's counts, times and digest of the subject are not computed.
- DocumentRewrite.FramesAreRedacted: the temporary file beside a frame file, and an old one left there, are not modelled.
- Deletion.Disk.RewriteAll: directories without files are not represented, so a root exists when some file lies at or below it; the same holds for Migration.
- Deletion.Disk.FindResiduals: the traversal order of files is arbitrary and the residual list is a set.
- Migration.Runtime.Migrate: reference files are typed documents; their counts, the event store details and the source revision are not in the payload; the store upgrade is one write; `resolve` and symbolic links are outside.
- Tree hashes are opaque; nothing is claimed about their collisions.
- RateLimit.FileLimiter.Consume: the promise queue that serialises calls and the ledger's own file format.
- ResourceMonitor.Monitor.OnChildCompleted: sampling, RSS, storage measurement and rates; result ids of concurrently active children are distinct.
- ResourceMonitor.CreateArtifact: shards are ordered by code units, not by locale, and the checks of plan, samples and time window are left out.
- ClientStore.ReachableIsSound: error messages, the event stream, the access publication of authentication and a restart after destroy.
- HTTP routing, the observers' HTML, manifests, scenario constants and option parsers, which would only add easy members.
