/** Octets, the little-endian 32-bit words of the target machine, and the predicate
    that locates one byte string inside another. */
module Bytes {

  newtype byte = x: int | 0 <= x < 256
  type word = x: int | 0 <= x < 0x1_0000_0000

  /** The four bytes that memcpy stores for a 32-bit value. */
  function Put32(v: word): (s: seq<byte>)
    ensures |s| == 4
  {
    [(v % 256) as byte, (v / 256 % 256) as byte, (v / 65536 % 256) as byte, (v / 16777216) as byte]
  }

  function Get32(s: seq<byte>, i: nat): word
    requires i + 4 <= |s|
  {
    s[i] as int + 256 * (s[i + 1] as int) + 65536 * (s[i + 2] as int) + 16777216 * (s[i + 3] as int)
  }

  /** The byte string part is stored in s at position i. */
  ghost predicate At(s: seq<byte>, i: nat, part: seq<byte>) {
    i + |part| <= |s| && s[i..i + |part|] == part
  }

  lemma AtSplit(s: seq<byte>, i: nat, a: seq<byte>, b: seq<byte>)
    requires At(s, i, a + b)
    ensures At(s, i, a) && At(s, i + |a|, b)
  {
    assert s[i..i + |a|] == (a + b)[..|a|];
    assert s[i + |a|..i + |a| + |b|] == (a + b)[|a|..];
  }

  lemma Get32At(s: seq<byte>, i: nat, v: word)
    requires At(s, i, Put32(v))
    ensures Get32(s, i) == v
  {
    var p := s[i..i + 4];
    assert p == Put32(v);
    assert p[0] == s[i] && p[1] == s[i + 1] && p[2] == s[i + 2] && p[3] == s[i + 3];
    assert v / 256 == v / 65536 * 256 + v / 256 % 256;
    assert v / 65536 == v / 16777216 * 256 + v / 65536 % 256;
  }

  /** The buffer after bytes have been copied over position at. */
  function Overwrite(code: seq<byte>, at: nat, bytes: seq<byte>): (r: seq<byte>)
    requires at + |bytes| <= |code|
    ensures |r| == |code|
  {
    code[..at] + bytes + code[at + |bytes|..]
  }

  lemma OverwriteNothing(code: seq<byte>, at: nat)
    requires at <= |code|
    ensures Overwrite(code, at, []) == code
  {
  }
}
