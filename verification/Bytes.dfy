// Byte strings and big-endian length prefixes.
module Bytes {

  type Byte = b: int | 0 <= b < 256

  type ByteString = seq<Byte>

  function Power256(k: nat): nat {
    if k == 0 then 1 else 256 * Power256(k - 1)
  }

  // The k-byte big-endian form of a number that fits.
  function BigEndian(n: nat, k: nat): (r: ByteString)
    requires n < Power256(k)
    ensures |r| == k
  {
    if k == 0 then [] else BigEndian(n / 256, k - 1) + [n % 256]
  }

  function Decode(s: ByteString): nat {
    if s == [] then 0 else Decode(s[..|s| - 1]) * 256 + s[|s| - 1]
  }

  lemma {:induction false} DecodeUndoesBigEndian(n: nat, k: nat)
    requires n < Power256(k)
    ensures Decode(BigEndian(n, k)) == n
  {
    if k > 0 {
      var s := BigEndian(n, k);
      assert s[..|s| - 1] == BigEndian(n / 256, k - 1);
      DecodeUndoesBigEndian(n / 256, k - 1);
    }
  }

  lemma {:induction false} DecodeFits(s: ByteString)
    ensures Decode(s) < Power256(|s|)
    ensures BigEndian(Decode(s), |s|) == s
  {
    if s != [] {
      DecodeFits(s[..|s| - 1]);
      assert s == s[..|s| - 1] + [s[|s| - 1]];
    }
  }

  // A length of k bytes in front of the value.
  function LengthPrefixed(v: ByteString, k: nat): ByteString
    requires |v| < Power256(k)
  {
    BigEndian(|v|, k) + v
  }

  // A length-prefixed value is recognised at the front of any stream.
  lemma LengthPrefixedUnique(a: ByteString, b: ByteString, x: ByteString, y: ByteString, k: nat)
    requires |a| < Power256(k) && |b| < Power256(k)
    requires LengthPrefixed(a, k) + x == LengthPrefixed(b, k) + y
    ensures a == b && x == y
  {
    var l, r := LengthPrefixed(a, k) + x, LengthPrefixed(b, k) + y;
    assert l[..k] == BigEndian(|a|, k) && r[..k] == BigEndian(|b|, k);
    DecodeUndoesBigEndian(|a|, k);
    DecodeUndoesBigEndian(|b|, k);
    assert l[k..k + |a|] == a && r[k..k + |b|] == b;
    assert l[k + |a|..] == x && r[k + |b|..] == y;
  }
}
