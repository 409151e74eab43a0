// The JSON-lines file behind an audit log: one encoded record and a newline per append.
module AuditFile {
  import opened Wrappers
  import opened AuditLog
  import opened JsText

  // `JSON.stringify` and `JSON.parse` of one record.
  datatype Codec = Codec(encode: Record -> string, decode: string -> Option<Record>)

  // JSON text of an object has no raw newline, no blank at either end, and parses back.
  ghost predicate Faithful(codec: Codec) {
    forall r: Record ::
      var line := codec.encode(r);
      && line != "" && '\n' !in line
      && !IsSpace(line[0]) && !IsSpace(line[|line| - 1])
      && codec.decode(line) == Some(r)
  }

  function Serialize(codec: Codec, log: seq<Record>): string {
    if log == [] then "" else codec.encode(log[0]) + "\n" + Serialize(codec, log[1..])
  }

  function DecodeLines(codec: Codec, lines: seq<string>): Result<seq<Record>, LogError> {
    if lines == [] then Ok([])
    else if lines[0] == "" then DecodeLines(codec, lines[1..])
    else match codec.decode(lines[0])
      case None => Error(MalformedRecord)
      case Some(record) =>
        var rest :- DecodeLines(codec, lines[1..]);
        Ok([record] + rest)
  }

  // The text part of `readAndVerifyRecords`.
  function ReadText(codec: Codec, text: string): Result<seq<Record>, LogError> {
    if text != "" && text[|text| - 1] != '\n' then Error(PartialFinalRecord)
    else DecodeLines(codec, Lines(Trim(text)))
  }

  lemma {:induction false} TrimSerialized(codec: Codec, log: seq<Record>)
    requires Faithful(codec) && log != []
    ensures Serialize(codec, log) != "" && Serialize(codec, log)[|Serialize(codec, log)| - 1] == '\n'
    ensures var text := Serialize(codec, log);
      TrimEnd(text) == text[..|text| - 1] && TrimStart(text) == text
  {
    var line := codec.encode(log[0]);
    var rest := Serialize(codec, log[1..]);
    var text := line + "\n" + rest;
    assert text[0] == line[0];
    if |log| > 1 {
      TrimSerialized(codec, log[1..]);
      TrimEndOfConcat(line + "\n", rest);
      assert text[..|text| - 1] == line + "\n" + rest[..|rest| - 1];
    } else {
      assert text == line + "\n" && text[..|text| - 1] == line;
    }
  }

  lemma {:induction false} TrimEndOfConcat(a: string, b: string)
    requires TrimEnd(b) != ""
    ensures TrimEnd(a + b) == a + TrimEnd(b)
  {
    if IsSpace(b[|b| - 1]) {
      assert (a + b)[..|a + b| - 1] == a + b[..|b| - 1];
      TrimEndOfConcat(a, b[..|b| - 1]);
    }
  }

  // One record in front of text that decodes.
  lemma DecodeFirst(codec: Codec, record: Record, lines: seq<string>, log: seq<Record>)
    requires Faithful(codec) && DecodeLines(codec, lines) == Ok(log)
    ensures DecodeLines(codec, [codec.encode(record)] + lines) == Ok([record] + log)
  {
    var all := [codec.encode(record)] + lines;
    assert all[1..] == lines;
    assert codec.decode(codec.encode(record)) == Some(record) && codec.encode(record) != "";
  }

  lemma DropLast(line: string, rest: string)
    requires rest != ""
    ensures (line + "\n" + rest)[..|line + "\n" + rest| - 1] == line + "\n" + rest[..|rest| - 1]
  {
  }

  lemma OneRecord(codec: Codec, record: Record)
    requires Faithful(codec)
    ensures DecodeLines(codec, Lines(codec.encode(record))) == Ok([record])
  {
    var line := codec.encode(record);
    assert '\n' !in line;
    OneLine(line);
    assert [line] + [] == [line] && [record] + [] == [record];
    DecodeFirst(codec, record, [], []);
  }

  lemma OneSerialized(codec: Codec, record: Record)
    ensures Serialize(codec, [record]) == codec.encode(record) + "\n"
    ensures (codec.encode(record) + "\n")[..|codec.encode(record) + "\n"| - 1] == codec.encode(record)
  {
    assert [record][1..] == [];
  }

  // A record's line in front of text that decodes.
  lemma DecodeText(codec: Codec, record: Record, rest: string, log: seq<Record>, text: string)
    requires Faithful(codec) && rest != "" && text == codec.encode(record) + "\n" + rest
    requires DecodeLines(codec, Lines(rest[..|rest| - 1])) == Ok(log)
    ensures text != "" && DecodeLines(codec, Lines(text[..|text| - 1])) == Ok([record] + log)
  {
    var line := codec.encode(record);
    assert '\n' !in line;
    DropLast(line, rest);
    LineThenRest(line, rest[..|rest| - 1]);
    DecodeFirst(codec, record, Lines(rest[..|rest| - 1]), log);
  }

  lemma {:induction false} DecodeSerialized(codec: Codec, log: seq<Record>)
    requires Faithful(codec) && log != []
    ensures var text := Serialize(codec, log);
      text != "" && DecodeLines(codec, Lines(text[..|text| - 1])) == Ok(log)
  {
    if |log| > 1 {
      var rest := Serialize(codec, log[1..]);
      TrimSerialized(codec, log[1..]);
      DecodeSerialized(codec, log[1..]);
      DecodeText(codec, log[0], rest, log[1..], Serialize(codec, log));
      assert log == [log[0]] + log[1..];
    } else {
      assert log == [log[0]];
      OneRecord(codec, log[0]);
      OneSerialized(codec, log[0]);
    }
  }

  // What has been written is read back.
  lemma ReadsBack(codec: Codec, log: seq<Record>)
    requires Faithful(codec)
    ensures ReadText(codec, Serialize(codec, log)) == Ok(log)
  {
    if log == [] {
      assert Lines("") == [""];
      assert DecodeLines(codec, [""][1..]) == Ok([]);
    } else {
      TrimSerialized(codec, log);
      DecodeSerialized(codec, log);
    }
  }

  lemma {:induction false} SerializeAppend(codec: Codec, log: seq<Record>, r: Record)
    ensures Serialize(codec, log + [r]) == Serialize(codec, log) + (codec.encode(r) + "\n")
  {
    if log == [] {
      assert (log + [r])[1..] == [];
      assert Serialize(codec, log + [r]) == codec.encode(r) + "\n" + "";
    } else {
      assert (log + [r])[1..] == log[1..] + [r];
      SerializeAppend(codec, log[1..], r);
    }
  }

  // An append interrupted after `written` characters: before the first one the old log is read, after
  // the newline the new one, and every torn final line in between is rejected.
  lemma TornAppend(codec: Codec, log: seq<Record>, r: Record, written: nat)
    requires Faithful(codec)
    requires written <= |codec.encode(r)| + 1
    ensures ReadText(codec, Serialize(codec, log) + (codec.encode(r) + "\n")[..written]) ==
      if written == 0 then Ok(log)
      else if written <= |codec.encode(r)| then Error(PartialFinalRecord)
      else Ok(log + [r])
  {
    var line := codec.encode(r) + "\n";
    var text := Serialize(codec, log) + line[..written];
    if written == 0 {
      assert text == Serialize(codec, log);
      ReadsBack(codec, log);
    } else if written < |line| {
      assert text[|text| - 1] == line[written - 1] == codec.encode(r)[written - 1];
    } else {
      assert line[..written] == line;
      SerializeAppend(codec, log, r);
      ReadsBack(codec, log + [r]);
    }
  }
}
