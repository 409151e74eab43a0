// UTF-8, and why searching the encoded bytes of a text is searching the text.
module Utf8 {
  import opened Sequences
  import opened Bytes
  import opened Substring

  // The bytes after the first one of a character.
  predicate IsContinuation(b: Byte) {
    0x80 <= b < 0xC0
  }

  function EncodeChar(c: char): (r: ByteString)
    ensures r != [] && !IsContinuation(r[0])
    ensures forall i :: 0 < i < |r| ==> IsContinuation(r[i])
  {
    var n := c as int;
    var m := n / 0x40;
    var l := m / 0x40;
    if n < 0x80 then [n]
    else if n < 0x800 then [0xC0 + m, 0x80 + n % 0x40]
    else if n < 0x10000 then [0xE0 + l, 0x80 + m % 0x40, 0x80 + n % 0x40]
    else [0xF0 + l / 0x40, 0x80 + l % 0x40, 0x80 + m % 0x40, 0x80 + n % 0x40]
  }

  function Encode(s: string): ByteString {
    if s == "" then [] else EncodeChar(s[0]) + Encode(s[1..])
  }

  lemma {:induction false} EncodeConcat(a: string, b: string)
    ensures Encode(a + b) == Encode(a) + Encode(b)
  {
    if a == "" {
      assert a + b == b;
    } else {
      assert (a + b)[1..] == a[1..] + b;
      EncodeConcat(a[1..], b);
      Regroup(EncodeChar(a[0]), Encode(a[1..]), Encode(b));
    }
  }

  // Every character is encoded by as many bytes as its first byte says, and its bytes give it back.
  function LengthFor(first: Byte): nat {
    if first < 0x80 then 1 else if first < 0xE0 then 2 else if first < 0xF0 then 3 else 4
  }

  function ValueOf(r: seq<int>): int {
    if |r| == 2 then (r[0] - 0xC0) * 0x40 + (r[1] - 0x80)
    else if |r| == 3 then ((r[0] - 0xE0) * 0x40 + (r[1] - 0x80)) * 0x40 + (r[2] - 0x80)
    else if |r| == 4 then (((r[0] - 0xF0) * 0x40 + (r[1] - 0x80)) * 0x40 + (r[2] - 0x80)) * 0x40 + (r[3] - 0x80)
    else if |r| == 1 then r[0]
    else 0
  }

  lemma LengthIsAnnounced(c: char)
    ensures |EncodeChar(c)| == LengthFor(EncodeChar(c)[0])
  {
    var n := c as int;
    var m := n / 0x40;
    var l := m / 0x40;
    assert m < 0x800 / 0x40 <==> n < 0x800;
    assert l < 0x10000 / 0x1000 <==> n < 0x10000;
  }

  lemma ValueIsChar(c: char)
    ensures ValueOf(EncodeChar(c)) == c as int
  {
    var n := c as int;
    var m := n / 0x40;
    var l := m / 0x40;
    assert n == m * 0x40 + n % 0x40;
    assert m == l * 0x40 + m % 0x40;
    assert l == l / 0x40 * 0x40 + l % 0x40;
  }

  // A character is recognised at the front of any bytes.
  lemma EncodeCharUnique(c: char, d: char, rest: ByteString)
    requires EncodeChar(c) <= EncodeChar(d) + rest
    ensures c == d
  {
    LengthIsAnnounced(c);
    LengthIsAnnounced(d);
    var r, t := EncodeChar(c), EncodeChar(d);
    assert r[0] == (t + rest)[0] == t[0];
    assert r == (t + rest)[..|r|] == t;
    ValueIsChar(c);
    ValueIsChar(d);
  }

  lemma {:induction false} PrefixDecodes(t: string, s: string)
    requires Encode(t) <= Encode(s)
    ensures t <= s
  {
    if t != "" {
      assert s != "";
      var r, rest := EncodeChar(t[0]), Encode(t[1..]);
      FrontOfConcat(r, rest, Encode(s));
      EncodeCharUnique(t[0], s[0], Encode(s[1..]));
      assert Encode(s)[|r|..] == Encode(s[1..]);
      PrefixDecodes(t[1..], s[1..]);
      assert t == [t[0]] + t[1..] && s == [s[0]] + s[1..];
    }
  }

  lemma FrontOfConcat(r: ByteString, rest: ByteString, whole: ByteString)
    requires r + rest <= whole
    ensures r <= whole && rest <= whole[|r|..]
  {
    assert whole[..|r|] == (r + rest)[..|r|] == r;
    assert whole[|r|..][..|rest|] == whole[|r|..|r| + |rest|] == (r + rest)[|r|..];
  }

  // Encoded text begins at the first byte of a character.
  lemma {:induction false} FoundInBytes(s: string, t: string, i: nat)
    requires t != "" && OccursAt(Encode(s), Encode(t), i)
    ensures Contains(s, t)
    decreases |s|
  {
    SliceOccurs(Encode(s), Encode(t), i);
    if i == 0 {
      PrefixDecodes(t, s);
      PrefixOccurs(s, t);
    } else {
      assert s != "";
      var r, rest := EncodeChar(s[0]), Encode(s[1..]);
      FirstByte(Encode(s), t, i);
      NotInsideChar(s[0], rest, i);
      WithinTail(r, rest, Encode(t), i);
      FoundInBytes(s[1..], t, i - |r|);
      var k :| 0 <= k <= |s[1..]| && OccursAt(s[1..], t, k);
      assert s[1..] == s[1..|s|];
      Shift(s, t, 1, |s|, k);
    }
  }

  lemma NotInsideChar(c: char, rest: ByteString, i: nat)
    requires 0 < i < |EncodeChar(c) + rest| && !IsContinuation((EncodeChar(c) + rest)[i])
    ensures |EncodeChar(c)| <= i
  {
  }

  lemma FirstByte(bytes: ByteString, t: string, i: nat)
    requires t != "" && OccursAt(bytes, Encode(t), i)
    ensures i < |bytes| && !IsContinuation(bytes[i])
  {
    OccurrenceElements(bytes, Encode(t), i);
    assert Encode(t)[0] == bytes[i + 0];
  }

  lemma PrefixOccurs<T>(s: seq<T>, t: seq<T>)
    requires t <= s
    ensures Contains(s, t)
  {
    ElementsOccur(s, t, 0);
  }

  // A byte search for encoded text finds exactly the texts that hold it.
  lemma ContainsIff(s: string, t: string)
    requires t != ""
    ensures Contains(Encode(s), Encode(t)) <==> Contains(s, t)
  {
    if Contains(Encode(s), Encode(t)) {
      var i :| 0 <= i <= |Encode(s)| && OccursAt(Encode(s), Encode(t), i);
      FoundInBytes(s, t, i);
    }
    if Contains(s, t) {
      var i :| 0 <= i <= |s| && OccursAt(s, t, i);
      CutAt(s, t, i);
      EncodeConcat(s[..i] + t, s[i + |t|..]);
      EncodeConcat(s[..i], t);
      MiddleContained(Encode(s[..i]), Encode(t), Encode(s[i + |t|..]));
    }
  }
}
