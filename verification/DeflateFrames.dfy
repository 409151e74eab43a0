// Files of compressed frames, each behind its length in four bytes, and the scan that looks for a
// target in every inflated frame.
module DeflateFrames {
  import opened Sequences
  import opened Wrappers
  import opened Bytes
  import opened Substring

  const HEADER: nat := 4

  // Payloads that a header can announce.
  predicate Framed(frames: seq<ByteString>) {
    forall i :: 0 <= i < |frames| ==> 0 < |frames[i]| < Power256(HEADER)
  }

  function Stream(frames: seq<ByteString>): ByteString
    requires Framed(frames)
  {
    if frames == [] then [] else LengthPrefixed(frames[0], HEADER) + Stream(frames[1..])
  }

  datatype FrameError = IncompleteHeader | IncompletePayload | InflateFailed

  // The first frame and the bytes after it.
  function Next(content: ByteString): (r: Result<(ByteString, ByteString), FrameError>)
    ensures r.Ok? ==> |r.value.1| < |content|
  {
    if |content| < HEADER then Error(IncompleteHeader)
    else
      var length, rest := Decode(content[..HEADER]), content[HEADER..];
      if length == 0 || length > |rest| then Error(IncompletePayload)
      else Ok((rest[..length], rest[length..]))
  }

  // What the scan finds, frame by frame: it stops at the first hit.
  function Scan(content: ByteString, target: ByteString, inflate: Inflate): Result<bool, FrameError>
    decreases |content|
  {
    if content == [] then Ok(false)
    else
      var next := Next(content);
      if next.Error? then Error(next.error)
      else
        var inflated := inflate(next.value.0);
        if inflated.None? then Error(InflateFailed)
        else if Contains(inflated.value, target) then Ok(true)
        else Scan(next.value.1, target, inflate)
  }

  type Inflate = ByteString -> Option<ByteString>

  lemma NextAt(content: ByteString, offset: nat, start: nat, length: nat)
    requires offset <= |content| && start == offset + HEADER <= |content| && length == Decode(content[offset..start])
    ensures Next(content[offset..]) ==
      if length == 0 || length > |content| - start then Error(IncompletePayload)
      else Ok((content[start..start + length], content[start + length..]))
  {
    var rest := content[offset..];
    assert rest[..HEADER] == content[offset..start];
    assert rest[HEADER..] == content[start..];
    if length <= |content| - start {
      assert content[start..][..length] == content[start..start + length];
      assert content[start..][length..] == content[start + length..];
    }
  }

  // The scan from an offset, as the loop goes on from there.
  function ScanFrom(content: ByteString, offset: nat, target: ByteString, inflate: Inflate): Result<bool, FrameError>
    requires offset <= |content|
    decreases |content| - offset
  {
    if offset == |content| then Ok(false)
    else if |content| - offset < HEADER then Error(IncompleteHeader)
    else
      var start := offset + HEADER;
      var length := Decode(content[offset..start]);
      if length == 0 || length > |content| - start then Error(IncompletePayload)
      else
        var inflated := inflate(content[start..start + length]);
        if inflated.None? then Error(InflateFailed)
        else if Contains(inflated.value, target) then Ok(true)
        else ScanFrom(content, start + length, target, inflate)
  }

  lemma {:induction false} ScanFromIsScan(content: ByteString, offset: nat, target: ByteString, inflate: Inflate)
    requires offset <= |content|
    ensures ScanFrom(content, offset, target, inflate) == Scan(content[offset..], target, inflate)
    decreases |content| - offset
  {
    if |content| - offset >= HEADER {
      var start := offset + HEADER;
      var length := Decode(content[offset..start]);
      NextAt(content, offset, start, length);
      if 0 < length <= |content| - start {
        ScanFromIsScan(content, start + length, target, inflate);
      }
    }
  }

  // `deflateFramesContain`
  method DeflateFramesContain(
    content: ByteString, target: ByteString, inflate: Inflate) returns (r: Result<bool, FrameError>)
    ensures r == Scan(content, target, inflate)
  {
    var offset := 0;
    ScanFromIsScan(content, 0, target, inflate);
    assert content[0..] == content;
    while offset < |content|
      invariant offset <= |content|
      invariant Scan(content, target, inflate) == ScanFrom(content, offset, target, inflate)
    {
      if |content| - offset < HEADER {
        return Error(IncompleteHeader);
      }
      var start := offset + HEADER;
      var length := Decode(content[offset..start]);
      if length == 0 || length > |content| - start {
        return Error(IncompletePayload);
      }
      var inflated := inflate(content[start..start + length]);
      if inflated.None? {
        return Error(InflateFailed);
      }
      if Contains(inflated.value, target) {
        return Ok(true);
      }
      offset := start + length;
    }
    return Ok(false);
  }

  // ---------- what the scan means ----------

  predicate Hit(frame: ByteString, target: ByteString, inflate: Inflate) {
    inflate(frame).Some? && Contains(inflate(frame).value, target)
  }

  predicate Passed(frame: ByteString, target: ByteString, inflate: Inflate) {
    inflate(frame).Some? && !Contains(inflate(frame).value, target)
  }

  predicate AllPassed(frames: seq<ByteString>, target: ByteString, inflate: Inflate) {
    forall i :: 0 <= i < |frames| ==> Passed(frames[i], target, inflate)
  }

  // A frame with the target, after frames that inflate and do not hold it.
  predicate HitAt(frames: seq<ByteString>, k: nat, target: ByteString, inflate: Inflate) {
    k < |frames| && Hit(frames[k], target, inflate) && forall i :: 0 <= i < k ==> Passed(frames[i], target, inflate)
  }

  ghost predicate FoundIn(frames: seq<ByteString>, target: ByteString, inflate: Inflate) {
    exists k: nat :: HitAt(frames, k, target, inflate)
  }

  // The frames that can be read off the content, and what is left behind them.
  function Frames(content: ByteString): (r: (seq<ByteString>, ByteString))
    ensures Framed(r.0)
    ensures r.1 == [] || Next(r.1).Error?
    decreases |content|
  {
    if content == [] then ([], [])
    else
      var next := Next(content);
      if next.Error? then ([], content)
      else
        var rest := Frames(next.value.1);
        HeaderFits(content);
        ([next.value.0] + rest.0, rest.1)
  }

  lemma HeaderFits(content: ByteString)
    requires Next(content).Ok?
    ensures 0 < |Next(content).value.0| < Power256(HEADER)
    ensures content == LengthPrefixed(Next(content).value.0, HEADER) + Next(content).value.1
  {
    var header := content[..HEADER];
    DecodeFits(header);
    var length, rest := Decode(header), content[HEADER..];
    assert content == header + rest && rest == rest[..length] + rest[length..];
    assert BigEndian(length, HEADER) == header;
    Regroup(header, rest[..length], rest[length..]);
  }

  // Reading frames loses nothing.
  lemma {:induction false} FramesRebuild(content: ByteString)
    ensures Stream(Frames(content).0) + Frames(content).1 == content
    decreases |content|
  {
    if content != [] && Next(content).Ok? {
      var next := Next(content).value;
      HeaderFits(content);
      FramesRebuild(next.1);
      var rest := Frames(next.1);
      assert ([next.0] + rest.0)[1..] == rest.0;
      Regroup(LengthPrefixed(next.0, HEADER), Stream(rest.0), rest.1);
    }
  }

  lemma NextOfStream(frame: ByteString, rest: ByteString)
    requires 0 < |frame| < Power256(HEADER)
    ensures Next(LengthPrefixed(frame, HEADER) + rest) == Ok((frame, rest))
  {
    var content := LengthPrefixed(frame, HEADER) + rest;
    assert content[..HEADER] == BigEndian(|frame|, HEADER);
    DecodeUndoesBigEndian(|frame|, HEADER);
    assert content[HEADER..] == frame + rest;
  }

  // A written stream is read back frame by frame, and torn bytes behind it stay apart.
  lemma {:induction false} FramesUndoStream(frames: seq<ByteString>, torn: ByteString)
    requires Framed(frames) && (torn == [] || Next(torn).Error?)
    ensures Frames(Stream(frames) + torn) == (frames, torn)
  {
    if frames == [] {
      assert Stream(frames) + torn == torn;
    } else {
      var rest := Stream(frames[1..]) + torn;
      Regroup(LengthPrefixed(frames[0], HEADER), Stream(frames[1..]), torn);
      NextOfStream(frames[0], rest);
      FramesUndoStream(frames[1..], torn);
      assert frames == [frames[0]] + frames[1..];
    }
  }

  // A cut inside a frame leaves bytes that are no frame.
  lemma CutFrameIsTorn(frame: ByteString, cut: nat)
    requires 0 < |frame| < Power256(HEADER) && 0 < cut < HEADER + |frame|
    ensures Next(LengthPrefixed(frame, HEADER)[..cut]).Error?
  {
    var torn := LengthPrefixed(frame, HEADER)[..cut];
    if cut >= HEADER {
      assert torn[..HEADER] == BigEndian(|frame|, HEADER);
      DecodeUndoesBigEndian(|frame|, HEADER);
    }
  }

  lemma HitInRest(first: ByteString, rest: seq<ByteString>, target: ByteString, inflate: Inflate)
    ensures FoundIn([first] + rest, target, inflate) <==>
      Hit(first, target, inflate) || (Passed(first, target, inflate) && FoundIn(rest, target, inflate))
  {
    var frames := [first] + rest;
    if Hit(first, target, inflate) {
      assert HitAt(frames, 0, target, inflate);
    }
    if k: nat :| HitAt(frames, k, target, inflate) {
      if k > 0 {
        assert Passed(frames[0], target, inflate);
        assert forall i :: 0 <= i < k - 1 ==> rest[i] == frames[i + 1];
        assert HitAt(rest, k - 1, target, inflate);
      }
    }
    if Passed(first, target, inflate) {
      if k: nat :| HitAt(rest, k, target, inflate) {
        assert HitAt(frames, k + 1, target, inflate);
      }
    }
  }

  lemma PassedOne(first: ByteString, rest: seq<ByteString>, target: ByteString, inflate: Inflate)
    ensures AllPassed([first] + rest, target, inflate) <==>
      Passed(first, target, inflate) && AllPassed(rest, target, inflate)
  {
    if AllPassed([first] + rest, target, inflate) {
      assert Passed(([first] + rest)[0], target, inflate);
      assert forall i :: 0 <= i < |rest| ==> rest[i] == ([first] + rest)[i + 1];
    }
  }

  // A hit is reported exactly when some readable frame holds the target and all before it could be
  // inflated.
  lemma {:induction false} HitIsReported(content: ByteString, target: ByteString, inflate: Inflate)
    ensures Scan(content, target, inflate) == Ok(true) <==> FoundIn(Frames(content).0, target, inflate)
    decreases |content|
  {
    if content == [] || Next(content).Error? {
      assert Frames(content).0 == [];
      assert !FoundIn([], target, inflate);
    } else {
      var next := Next(content).value;
      HitIsReported(next.1, target, inflate);
      HitInRest(next.0, Frames(next.1).0, target, inflate);
    }
  }

  // Absence is reported exactly when the whole content is frames, each inflates, and none holds the
  // target.
  lemma {:induction false} AbsenceIsReported(content: ByteString, target: ByteString, inflate: Inflate)
    ensures Scan(content, target, inflate) == Ok(false) <==>
      Frames(content).1 == [] && AllPassed(Frames(content).0, target, inflate)
    decreases |content|
  {
    if content != [] && Next(content).Ok? {
      var next := Next(content).value;
      AbsenceIsReported(next.1, target, inflate);
      PassedOne(next.0, Frames(next.1).0, target, inflate);
    }
  }

  predicate SomeHit(frames: seq<ByteString>, target: ByteString, inflate: Inflate) {
    exists i :: 0 <= i < |frames| && Hit(frames[i], target, inflate)
  }

  lemma {:induction false} FirstHit(frames: seq<ByteString>, i: nat, target: ByteString, inflate: Inflate)
    requires i < |frames| && Hit(frames[i], target, inflate)
    requires forall j :: 0 <= j < |frames| ==> inflate(frames[j]).Some?
    ensures FoundIn(frames, target, inflate)
    decreases i
  {
    if !HitAt(frames, i, target, inflate) {
      var j :| 0 <= j < i && !Passed(frames[j], target, inflate);
      FirstHit(frames, j, target, inflate);
    }
  }

  lemma HitOrPassed(frames: seq<ByteString>, target: ByteString, inflate: Inflate)
    requires forall i :: 0 <= i < |frames| ==> inflate(frames[i]).Some?
    ensures FoundIn(frames, target, inflate) <==> SomeHit(frames, target, inflate)
    ensures AllPassed(frames, target, inflate) <==> !SomeHit(frames, target, inflate)
  {
    if SomeHit(frames, target, inflate) {
      var i :| 0 <= i < |frames| && Hit(frames[i], target, inflate);
      FirstHit(frames, i, target, inflate);
      assert !Passed(frames[i], target, inflate);
    } else {
      assert forall i :: 0 <= i < |frames| ==> Passed(frames[i], target, inflate);
    }
  }

  lemma OkIsDecided(r: Result<bool, FrameError>)
    ensures r == Ok(true) || r == Ok(false) || r.Error?
  {
    if r.Ok? {
      assert r == Ok(r.value);
      if r.value {
        assert r == Ok(true);
      } else {
        assert r == Ok(false);
      }
    }
  }

  // On frames that all inflate, followed by bytes that are no frame, the scan reports a hit exactly when
  // one frame holds the target, and otherwise refuses any torn rest. A target spread over two frames is
  // not found.
  lemma ScanDecides(frames: seq<ByteString>, torn: ByteString, target: ByteString, inflate: Inflate)
    requires Framed(frames) && forall i :: 0 <= i < |frames| ==> inflate(frames[i]).Some?
    requires torn == [] || Next(torn).Error?
    ensures var r := Scan(Stream(frames) + torn, target, inflate);
      if SomeHit(frames, target, inflate) then r == Ok(true) else if torn == [] then r == Ok(false) else r.Error?
  {
    var content := Stream(frames) + torn;
    FramesUndoStream(frames, torn);
    HitIsReported(content, target, inflate);
    AbsenceIsReported(content, target, inflate);
    HitOrPassed(frames, target, inflate);
    OkIsDecided(Scan(content, target, inflate));
  }
}
