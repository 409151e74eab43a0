// The few string operations of JavaScript that the runtime tools rely on.
module JsText {

  // The class `\s` of a regular expression, which is also what `trim` removes.
  predicate IsSpace(c: char) {
    || '\t' <= c <= '\r' || c == ' ' || c == '\U{0000A0}' || c == '\U{001680}'
    || '\U{002000}' <= c <= '\U{00200A}' || '\U{002028}' <= c <= '\U{002029}'
    || c == '\U{00202F}' || c == '\U{00205F}' || c == '\U{003000}' || c == '\U{00FEFF}'
  }

  function TrimStart(s: string): string {
    if s != "" && IsSpace(s[0]) then TrimStart(s[1..]) else s
  }

  function TrimEnd(s: string): string {
    if s != "" && IsSpace(s[|s| - 1]) then TrimEnd(s[..|s| - 1]) else s
  }

  function Trim(s: string): string {
    TrimEnd(TrimStart(s))
  }

  predicate IsBlank(s: string) {
    AreBlank(s, 0, |s|)
  }

  predicate AreBlank(s: string, from: nat, to: nat)
    requires from <= to <= |s|
  {
    forall i :: from <= i < to ==> IsSpace(s[i])
  }

  // The text is the name between blanks, and the name neither begins nor ends with one.
  predicate IsTrimOf(s: string, name: string) {
    IsBare(name) && exists i: nat :: i <= |s| && IsBetweenBlanks(s, name, i)
  }

  predicate IsBare(name: string) {
    name == "" || (!IsSpace(name[0]) && !IsSpace(name[|name| - 1]))
  }

  predicate IsBetweenBlanks(s: string, name: string, i: nat) {
    && i + |name| <= |s| && s[i..i + |name|] == name
    && AreBlank(s, 0, i) && AreBlank(s, i + |name|, |s|)
  }

  lemma {:induction false} TrimStartMeans(s: string)
    ensures |TrimStart(s)| <= |s| && s[|s| - |TrimStart(s)|..] == TrimStart(s)
    ensures AreBlank(s, 0, |s| - |TrimStart(s)|)
    ensures TrimStart(s) == "" || !IsSpace(TrimStart(s)[0])
  {
    if s != "" && IsSpace(s[0]) {
      var rest := s[1..];
      TrimStartMeans(rest);
      forall i | 0 <= i < |s| - |TrimStart(s)| ensures IsSpace(s[i]) {
        assert i > 0 ==> s[i] == rest[i - 1];
      }
    }
  }

  lemma {:induction false} TrimEndMeans(s: string)
    ensures TrimEnd(s) <= s && AreBlank(s, |TrimEnd(s)|, |s|)
    ensures TrimEnd(s) == "" || !IsSpace(TrimEnd(s)[|TrimEnd(s)| - 1])
  {
    if s != "" && IsSpace(s[|s| - 1]) {
      var rest := s[..|s| - 1];
      TrimEndMeans(rest);
      forall i | |TrimEnd(s)| <= i < |s| ensures IsSpace(s[i]) {
        assert i < |rest| ==> s[i] == rest[i];
      }
    }
  }

  // Trimming takes away the blanks at both ends and nothing else.
  lemma {:induction false} TrimMeans(s: string)
    ensures IsTrimOf(s, Trim(s))
  {
    var rest, name := TrimStart(s), Trim(s);
    var i := |s| - |rest|;
    TrimStartMeans(s);
    TrimEndMeans(rest);
    TrimmedAt(s, rest, name, i);
    assert name != "" ==> name[0] == rest[0];
  }

  lemma {:induction false} TrimmedAt(s: string, rest: string, name: string, i: nat)
    requires i <= |s| && s[i..] == rest && name <= rest
    requires AreBlank(s, 0, i) && AreBlank(rest, |name|, |rest|)
    ensures IsBetweenBlanks(s, name, i)
  {
    forall k | i + |name| <= k < |s| ensures IsSpace(s[k]) {
      assert s[k] == rest[k - i];
    }
    assert s[i..i + |name|] == rest[..|name|];
  }

  lemma {:induction false} BetweenMeans(s: string, name: string, i: nat)
    requires IsBetweenBlanks(s, name, i)
    ensures i + |name| <= |s|
    ensures forall k :: 0 <= k < |name| ==> s[i + k] == name[k]
  {
    forall k | 0 <= k < |name| ensures s[i + k] == name[k] {
      assert s[i..i + |name|][k] == s[i + k];
    }
  }

  // A character of the text is a blank in front, in the name, or a blank behind.
  lemma {:induction false} WhereItStands(s: string, name: string, i: nat, k: nat)
    requires IsBetweenBlanks(s, name, i) && k < |s|
    ensures !IsSpace(s[k]) ==> i <= k < i + |name| && name[k - i] == s[k]
  {
    if i <= k < i + |name| {
      assert s[i..i + |name|][k - i] == s[k];
    }
  }

  lemma {:induction false} TrimIsBlank(s: string)
    ensures Trim(s) == "" <==> IsBlank(s)
  {
    TrimMeans(s);
    var name := Trim(s);
    var i: nat :| IsBetweenBlanks(s, name, i);
    if name == "" {
      forall k | 0 <= k < |s| ensures IsSpace(s[k]) {
        WhereItStands(s, name, i, k);
      }
    } else {
      BetweenMeans(s, name, i);
      assert s[i + 0] == name[0];
    }
  }

  lemma {:induction false} TrimKeeps(s: string, c: char)
    requires !IsSpace(c)
    ensures c in Trim(s) <==> c in s
  {
    TrimMeans(s);
    var name := Trim(s);
    var i: nat :| IsBetweenBlanks(s, name, i);
    if c in s {
      var k: nat :| k < |s| && s[k] == c;
      WhereItStands(s, name, i, k);
    }
    if c in name {
      var k :| 0 <= k < |name| && name[k] == c;
      BetweenMeans(s, name, i);
      assert s[i + k] == c;
    }
  }

  lemma {:induction false} TrimIsUnique(s: string, a: string, b: string)
    requires IsTrimOf(s, a) && IsTrimOf(s, b)
    ensures a == b
  {
    var i: nat :| IsBetweenBlanks(s, a, i);
    var j: nat :| IsBetweenBlanks(s, b, j);
    EndsWithin(s, a, i, b, j);
    EndsWithin(s, b, j, a, i);
  }

  lemma {:induction false} EndsWithin(s: string, a: string, i: nat, b: string, j: nat)
    requires IsBare(a) && IsBetweenBlanks(s, a, i) && IsBetweenBlanks(s, b, j)
    ensures a != "" ==> j <= i && i + |a| <= j + |b|
  {
    if a != "" {
      BetweenMeans(s, a, i);
      assert s[i + 0] == a[0] && s[i + (|a| - 1)] == a[|a| - 1];
      WhereItStands(s, b, j, i);
      WhereItStands(s, b, j, i + |a| - 1);
    }
  }

  // `split('\n')`
  function Lines(s: string): (lines: seq<string>)
    ensures lines != []
  {
    if s == "" then [""]
    else
      var rest := Lines(s[1..]);
      if s[0] == '\n' then [""] + rest else [[s[0]] + rest[0]] + rest[1..]
  }

  lemma {:induction false} OneLine(line: string)
    requires '\n' !in line
    ensures Lines(line) == [line]
  {
    if line != "" {
      OneLine(line[1..]);
      assert [line[0]] + line[1..] == line;
    }
  }

  lemma {:induction false} LineThenRest(line: string, rest: string)
    requires '\n' !in line
    ensures Lines(line + "\n" + rest) == [line] + Lines(rest)
  {
    var whole := line + "\n" + rest;
    if line == "" {
      assert whole[1..] == rest;
    } else {
      assert whole[1..] == line[1..] + "\n" + rest;
      LineThenRest(line[1..], rest);
      assert whole[0] == line[0] && [line[0]] + line[1..] == line;
      assert ([line[1..]] + Lines(rest))[1..] == Lines(rest);
    }
  }
}
