// The append-only, hash-chained record log of one participant-data deletion request:
// its record format, the chain check, the folding reader and the JSON-lines file it lives in.
module AuditLog {
  import opened Wrappers

  const POLICY_VERSION := "participant-data-lifecycle-v1"
  const GENESIS := "genesis"

  datatype CopyKind = Source | Backup

  datatype DataCopy = DataCopy(
    copyId: string, kind: CopyKind, rootDir: string, treeFingerprint: string, retireAfter: int)

  datatype Policy = Policy(directIdentityRetentionMs: int, backupRetentionMs: int)

  datatype Event =
    | RequestRecorded(requestId: string, subjectReference: string, policy: Policy, copies: seq<DataCopy>)
    | CopyPrepared(deletionId: string, targetRootDir: string, targetTreeFingerprint: string)
    | CopyActivated(targetRootDir: string, resolvedRunManifestId: string, healthVerifiedAt: int)
    | RetirementStarted(copyId: string, expectedTreeFingerprint: string)
    | CopyRetired(copyId: string)
    | RequestCompleted

  // A record without its own hash; this is the value that is hashed.
  datatype Unsigned = Unsigned(
    schemaVersion: string, sequence: int, eventId: string, occurredAt: int, previousRecordHash: string, event: Event)

  datatype Record = Record(body: Unsigned, recordHash: string)

  // SHA-256 over the JSON text of a record body. What the chain relies on is injectivity.
  type RecordHash = Unsigned -> string

  ghost predicate Injective(hash: RecordHash) {
    forall a, b :: hash(a) == hash(b) ==> a == b
  }

  datatype LogError =
    | RequestMissing
    | PartialFinalRecord
    | MalformedRecord
    | IntegrityFailed(sequence: nat)
    | InvalidEvent(event: Event)

  // ---------- the hash chain ----------

  function HashBefore(log: seq<Record>, index: nat): string
    requires index <= |log|
  {
    if index == 0 then GENESIS else log[index - 1].recordHash
  }

  predicate Linked(hash: RecordHash, log: seq<Record>, index: nat)
    requires index < |log|
  {
    var record := log[index];
    && record.body.schemaVersion == POLICY_VERSION
    && record.body.sequence == index + 1
    && record.body.previousRecordHash == HashBefore(log, index)
    && record.recordHash == hash(record.body)
  }

  predicate Chained(hash: RecordHash, log: seq<Record>) {
    forall i :: 0 <= i < |log| ==> Linked(hash, log, i)
  }

  // The loop of `readAndVerifyRecords`: accepts exactly the chained logs and names the first bad record.
  method VerifyRecords(hash: RecordHash, log: seq<Record>) returns (r: Result<seq<Record>, LogError>)
    ensures r.Ok? <==> Chained(hash, log)
    ensures r.Ok? ==> r.value == log
    ensures r.Error? ==>
      && r.error.IntegrityFailed? && 1 <= r.error.sequence <= |log|
      && !Linked(hash, log, r.error.sequence - 1)
      && Chained(hash, log[..r.error.sequence - 1])
  {
    var previousHash := GENESIS;
    for index := 0 to |log|
      invariant previousHash == HashBefore(log, index)
      invariant forall i :: 0 <= i < index ==> Linked(hash, log, i)
    {
      var record := log[index];
      if || record.body.schemaVersion != POLICY_VERSION
         || record.body.sequence != index + 1
         || record.body.previousRecordHash != previousHash
         || record.recordHash != hash(record.body)
      {
        ChainedPrefix(hash, log, index);
        assert !Linked(hash, log, index);
        return Error(IntegrityFailed(index + 1));
      }
      previousHash := record.recordHash;
    }
    return Ok(log);
  }

  lemma ChainedPrefix(hash: RecordHash, log: seq<Record>, n: nat)
    requires n <= |log|
    requires forall i :: 0 <= i < n ==> Linked(hash, log, i)
    ensures Chained(hash, log[..n])
  {
    forall i | 0 <= i < n ensures Linked(hash, log[..n], i) {
      assert Linked(hash, log, i);
    }
  }

  // With a collision-free hash, the last record hash pins down the whole log.
  lemma {:induction false} LastHashDeterminesLog(hash: RecordHash, left: seq<Record>, right: seq<Record>)
    requires Injective(hash)
    requires Chained(hash, left) && Chained(hash, right)
    requires left != [] && right != []
    requires left[|left| - 1].recordHash == right[|right| - 1].recordHash
    ensures left == right
  {
    var n := |left| - 1;
    assert Linked(hash, left, n) && Linked(hash, right, |right| - 1);
    assert left[n] == right[|right| - 1];
    if n > 0 {
      ChainedPrefix(hash, left, n);
      ChainedPrefix(hash, right, n);
      LastHashDeterminesLog(hash, left[..n], right[..n]);
    }
    assert left == left[..n] + [left[n]];
    assert right == right[..n] + [right[n]];
  }

  // ---------- appending ----------

  // `appendRecord`, applied to a log that has been read and verified.
  function NextRecord(hash: RecordHash, log: seq<Record>, eventId: string, occurredAt: int, event: Event): Record {
    var body := Unsigned(
      POLICY_VERSION,
      (if log == [] then 0 else log[|log| - 1].body.sequence) + 1,
      eventId, occurredAt, HashBefore(log, |log|), event);
    Record(body, hash(body))
  }

  lemma AppendKeepsChain(hash: RecordHash, log: seq<Record>, eventId: string, occurredAt: int, event: Event)
    requires Chained(hash, log)
    ensures Chained(hash, log + [NextRecord(hash, log, eventId, occurredAt, event)])
  {
    var longer := log + [NextRecord(hash, log, eventId, occurredAt, event)];
    forall i | 0 <= i < |longer| ensures Linked(hash, longer, i) {
      if i < |log| {
        assert Linked(hash, log, i);
        assert HashBefore(longer, i) == HashBefore(log, i);
      } else if i > 0 {
        assert Linked(hash, log, i - 1);
      }
    }
  }

  // ---------- the folding reader ----------

  datatype PreparedTarget = PreparedTarget(deletionId: string, rootDir: string, treeFingerprint: string)
  datatype ActivatedTarget = ActivatedTarget(rootDir: string, resolvedRunManifestId: string, healthVerifiedAt: int)

  datatype State = State(
    requestId: string,
    requestedAt: int,
    subjectReference: string,
    policy: Policy,
    copies: seq<DataCopy>,
    prepared: Option<PreparedTarget>,
    activated: Option<ActivatedTarget>,
    started: set<string>,
    retired: set<string>,
    completed: bool)

  function CopyIds(copies: seq<DataCopy>): set<string> {
    set copy | copy in copies :: copy.copyId
  }

  // `copies.find(...)`: the first copy with the given id.
  function FindCopy(copies: seq<DataCopy>, copyId: string): (r: Option<DataCopy>)
    ensures r.Some? <==> copyId in CopyIds(copies)
    ensures r.Some? ==> r.value in copies && r.value.copyId == copyId
  {
    if copies == [] then None
    else if copies[0].copyId == copyId then Some(copies[0])
    else
      var rest := FindCopy(copies[1..], copyId);
      assert copies == [copies[0]] + copies[1..];
      rest
  }

  predicate AllRetired(copies: seq<DataCopy>, retired: set<string>) {
    forall copy :: copy in copies ==> copy.copyId in retired
  }

  // One iteration of the reader's loop.
  function Apply(s: State, event: Event): Result<State, LogError> {
    match event
    case CopyPrepared(deletionId, root, fingerprint) =>
      if s.prepared.Some? then Error(InvalidEvent(event))
      else Ok(s.(prepared := Some(PreparedTarget(deletionId, root, fingerprint))))
    case CopyActivated(root, manifest, verifiedAt) =>
      if s.prepared.None? || s.activated.Some? then Error(InvalidEvent(event))
      else Ok(s.(activated := Some(ActivatedTarget(root, manifest, verifiedAt))))
    case RetirementStarted(copyId, expected) =>
      if s.activated.None? || copyId in s.started then Error(InvalidEvent(event))
      else
        var copy := FindCopy(s.copies, copyId);
        if copy.None? || copy.value.treeFingerprint != expected then Error(InvalidEvent(event))
        else Ok(s.(started := s.started + {copyId}))
    case CopyRetired(copyId) =>
      if copyId !in s.started || copyId in s.retired then Error(InvalidEvent(event))
      else Ok(s.(retired := s.retired + {copyId}))
    case RequestCompleted =>
      if s.completed || !AllRetired(s.copies, s.retired) then Error(InvalidEvent(event))
      else Ok(s.(completed := true))
    case RequestRecorded(_, _, _, _) => Error(InvalidEvent(event))
  }

  function Opening(first: Record): Result<State, LogError> {
    match first.body.event
    case RequestRecorded(requestId, reference, policy, copies) =>
      Ok(State(requestId, first.body.occurredAt, reference, policy, copies, None, None, {}, {}, false))
    case _ => Error(RequestMissing)
  }

  // The reader as a fold over the records.
  function Replay(log: seq<Record>): Result<State, LogError> {
    if log == [] then Error(RequestMissing)
    else if |log| == 1 then Opening(log[0])
    else
      var s :- Replay(log[..|log| - 1]);
      Apply(s, log[|log| - 1].body.event)
  }

  lemma {:induction false} RejectedPrefix(log: seq<Record>, n: nat)
    requires 0 < n <= |log|
    requires Replay(log[..n]).Error?
    ensures Replay(log) == Replay(log[..n])
  {
    if n == |log| {
      assert log[..n] == log;
    } else {
      var init := log[..|log| - 1];
      assert init[..n] == log[..n];
      RejectedPrefix(init, n);
    }
  }

  // `readState`: chain check, then one loop over the remaining records that updates locals and sets.
  method ReadState(hash: RecordHash, log: seq<Record>) returns (r: Result<State, LogError>)
    ensures Chained(hash, log) ==> r == Replay(log)
    ensures !Chained(hash, log) ==> r.Error? && r.error.IntegrityFailed?
  {
    var verified := VerifyRecords(hash, log);
    if verified.Error? {
      return Error(verified.error);
    }
    if log == [] || !log[0].body.event.RequestRecorded? {
      if log != [] {
        assert log[..1] == [log[0]];
        RejectedPrefix(log, 1);
      }
      return Error(RequestMissing);
    }
    var first := log[0].body.event;
    var prepared: Option<PreparedTarget>, activated: Option<ActivatedTarget> := None, None;
    var started: set<string>, retired: set<string>, completed := {}, {}, false;
    assert log[..1] == [log[0]];
    for index := 1 to |log|
      invariant Replay(log[..index]) == Ok(State(
        first.requestId, log[0].body.occurredAt, first.subjectReference, first.policy, first.copies,
        prepared, activated, started, retired, completed))
    {
      var event := log[index].body.event;
      assert log[..index + 1][..index] == log[..index];
      assert Replay(log[..index + 1]) == Apply(Replay(log[..index]).value, event);
      var bad := false;
      match event {
        case CopyPrepared(deletionId, root, fingerprint) =>
          if prepared.Some? {
            bad := true;
          } else {
            prepared := Some(PreparedTarget(deletionId, root, fingerprint));
          }
        case CopyActivated(root, manifest, verifiedAt) =>
          if prepared.None? || activated.Some? {
            bad := true;
          } else {
            activated := Some(ActivatedTarget(root, manifest, verifiedAt));
          }
        case RetirementStarted(copyId, expected) =>
          var copy := FindCopy(first.copies, copyId);
          if activated.None? || copyId in started || copy.None? || copy.value.treeFingerprint != expected {
            bad := true;
          } else {
            started := started + {copyId};
          }
        case CopyRetired(copyId) =>
          if copyId !in started || copyId in retired {
            bad := true;
          } else {
            retired := retired + {copyId};
          }
        case RequestCompleted =>
          if completed || !AllRetired(first.copies, retired) {
            bad := true;
          } else {
            completed := true;
          }
        case RequestRecorded(_, _, _, _) =>
          bad := true;
      }
      if bad {
        RejectedPrefix(log, index + 1);
        return Error(InvalidEvent(event));
      }
    }
    assert log[..|log|] == log;
    r := Ok(State(
      first.requestId, log[0].body.occurredAt, first.subjectReference, first.policy, first.copies,
      prepared, activated, started, retired, completed));
  }

  // ---------- the derived view: status and next deadline ----------

  datatype Status = Requested | Prepared | Activated | Retiring | Completed

  function StatusOf(s: State): Status {
    if s.completed then Completed
    else if s.started != {} then Retiring
    else if s.activated.Some? then Activated
    else if s.prepared.Some? then Prepared
    else Requested
  }

  function Rank(status: Status): nat {
    match status
    case Requested => 0
    case Prepared => 1
    case Activated => 2
    case Retiring => 3
    case Completed => 4
  }

  // `Math.min` over the `retireAfter` values of the copies that are not retired yet.
  function NextDeadline(copies: seq<DataCopy>, retired: set<string>): Option<int> {
    if copies == [] then None
    else
      var rest := NextDeadline(copies[1..], retired);
      if copies[0].copyId in retired then rest
      else match rest
        case None => Some(copies[0].retireAfter)
        case Some(d) => Some(if copies[0].retireAfter <= d then copies[0].retireAfter else d)
  }

  ghost predicate IsPending(copies: seq<DataCopy>, retired: set<string>, copy: DataCopy) {
    copy in copies && copy.copyId !in retired
  }

  // The reported deadline is the least one among the pending copies, and absent exactly without any.
  lemma {:induction false} NextDeadlineIsLeast(copies: seq<DataCopy>, retired: set<string>)
    ensures NextDeadline(copies, retired).None? <==> AllRetired(copies, retired)
    ensures forall d :: NextDeadline(copies, retired) == Some(d) ==>
      && (forall copy :: IsPending(copies, retired, copy) ==> d <= copy.retireAfter)
      && (exists copy :: IsPending(copies, retired, copy) && copy.retireAfter == d)
  {
    if copies != [] {
      var tail := copies[1..];
      NextDeadlineIsLeast(tail, retired);
      assert copies == [copies[0]] + tail;
      assert forall copy :: IsPending(tail, retired, copy) ==> IsPending(copies, retired, copy);
      assert forall copy :: IsPending(copies, retired, copy) ==>
        copy == copies[0] || IsPending(tail, retired, copy);
      if copies[0].copyId !in retired {
        assert IsPending(copies, retired, copies[0]);
      }
    }
  }

  // Retiring more copies never brings the next deadline forward.
  lemma DeadlineNeverDecreases(copies: seq<DataCopy>, before: set<string>, after: set<string>)
    requires before <= after
    ensures NextDeadline(copies, before).None? ==> NextDeadline(copies, after).None?
    ensures NextDeadline(copies, after).Some? ==>
      NextDeadline(copies, before).Some? && NextDeadline(copies, before).value <= NextDeadline(copies, after).value
  {
    NextDeadlineIsLeast(copies, before);
    NextDeadlineIsLeast(copies, after);
    if NextDeadline(copies, after).Some? {
      var copy :| IsPending(copies, after, copy) && copy.retireAfter == NextDeadline(copies, after).value;
      assert IsPending(copies, before, copy);
    }
  }

  // ---------- what acceptance by the reader means ----------

  function Count(log: seq<Record>, event: Event): nat {
    if log == [] then 0
    else Count(log[..|log| - 1], event) + (if log[|log| - 1].body.event == event then 1 else 0)
  }

  function FingerprintOf(s: State, copyId: string): string {
    match FindCopy(s.copies, copyId)
    case Some(copy) => copy.treeFingerprint
    case None => ""
  }

  // Shape of every state the reader returns.
  predicate Consistent(s: State) {
    && s.retired <= s.started <= CopyIds(s.copies)
    && (s.started != {} ==> s.activated.Some?)
    && (s.activated.Some? ==> s.prepared.Some?)
    && (s.completed ==> AllRetired(s.copies, s.retired))
  }

  lemma ApplyIsConsistent(s: State, event: Event)
    requires Consistent(s) && Apply(s, event).Ok?
    ensures Consistent(Apply(s, event).value)
    ensures Apply(s, event).value.copies == s.copies
    ensures s.started <= Apply(s, event).value.started && s.retired <= Apply(s, event).value.retired
    ensures s.prepared.Some? ==> Apply(s, event).value.prepared == s.prepared
    ensures s.activated.Some? ==> Apply(s, event).value.activated == s.activated
    ensures s.completed ==> Apply(s, event).value.completed
  {
  }

  lemma {:induction false} ReplayIsConsistent(log: seq<Record>)
    requires Replay(log).Ok?
    ensures Consistent(Replay(log).value)
  {
    if |log| > 1 {
      ReplayIsConsistent(log[..|log| - 1]);
      ApplyIsConsistent(Replay(log[..|log| - 1]).value, log[|log| - 1].body.event);
    }
  }

  // One intent record if the copy is started, one completion record if it is retired, and one final
  // record if the request is completed.
  predicate CountsFit(log: seq<Record>, s: State, copyId: string) {
    && Count(log, RetirementStarted(copyId, FingerprintOf(s, copyId))) == (if copyId in s.started then 1 else 0)
    && Count(log, CopyRetired(copyId)) == (if copyId in s.retired then 1 else 0)
    && Count(log, RequestCompleted) == (if s.completed then 1 else 0)
  }

  lemma ApplyKeepsCounts(log: seq<Record>, s: State, event: Event, copyId: string)
    requires log != [] && log[|log| - 1].body.event == event
    requires CountsFit(log[..|log| - 1], s, copyId) && Apply(s, event).Ok?
    ensures CountsFit(log, Apply(s, event).value, copyId)
  {
    assert FingerprintOf(Apply(s, event).value, copyId) == FingerprintOf(s, copyId);
  }

  // So no record is ever appended twice to an accepted log, and none for a copy that did not get that far.
  lemma {:induction false} EachRecordOnce(log: seq<Record>, copyId: string)
    requires Replay(log).Ok?
    ensures CountsFit(log, Replay(log).value, copyId)
  {
    if |log| == 1 {
      assert log[..0] == [];
    } else {
      EachRecordOnce(log[..|log| - 1], copyId);
      ApplyKeepsCounts(log, Replay(log[..|log| - 1]).value, log[|log| - 1].body.event, copyId);
    }
  }

  // Along an accepted log the state only moves forward.
  predicate Forward(before: State, after: State) {
    && before.copies == after.copies
    && before.started <= after.started && before.retired <= after.retired
    && (before.completed ==> after.completed)
    && (before.prepared.Some? ==> after.prepared == before.prepared)
    && (before.activated.Some? ==> after.activated == before.activated)
    && Rank(StatusOf(before)) <= Rank(StatusOf(after))
  }

  lemma {:induction false} PrefixMovesForward(log: seq<Record>, n: nat)
    requires 0 < n <= |log| && Replay(log).Ok?
    ensures Replay(log[..n]).Ok? && Forward(Replay(log[..n]).value, Replay(log).value)
  {
    if n == |log| {
      assert log[..n] == log;
    } else {
      var init := log[..|log| - 1];
      assert init[..n] == log[..n];
      ReplayIsConsistent(init);
      ApplyIsConsistent(Replay(init).value, log[|log| - 1].body.event);
      PrefixMovesForward(init, n);
    }
  }
}
