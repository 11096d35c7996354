/** Bytes and the network byte order used by every packet in the repository. */
module Bytes {

  type Byte = x: int | 0 <= x < 256

  /** htons: the low 16 bits of n, most significant byte first. */
  function U16(n: nat): (s: seq<Byte>)
    ensures |s| == 2
  {
    [n / 0x100 % 256, n % 256]
  }

  /** htonl: the low 32 bits of n, most significant byte first. */
  function U32(n: nat): (s: seq<Byte>)
    ensures |s| == 4
  {
    U16(n / 0x1_0000) + U16(n)
  }

  /** Network byte order: the most significant byte comes first. */
  lemma HighFirst(n: nat)
    ensures U16(n) == [n / 0x100 % 256, n % 256]
    ensures U32(n) == [n / 0x100_0000 % 256, n / 0x1_0000 % 256, n / 0x100 % 256, n % 256]
  {
    assert n / 0x1_0000 / 0x100 == n / 0x100_0000;
  }

  /** ntohs applied to the two bytes at position p. */
  function GetU16(s: seq<Byte>, p: nat): (n: nat)
    requires p + 2 <= |s|
    ensures n < 0x1_0000
  {
    (s[p] as int) * 0x100 + s[p + 1] as int
  }

  /** ntohl applied to the four bytes at position p. */
  function GetU32(s: seq<Byte>, p: nat): (n: nat)
    requires p + 4 <= |s|
    ensures n < 0x1_0000_0000
  {
    GetU16(s, p) * 0x1_0000 + GetU16(s, p + 2)
  }

  /** Reading back what htons wrote gives the value modulo 2^16, wherever it lies. */
  lemma U16RoundTrip(n: nat, s: seq<Byte>, p: nat)
    requires p + 2 <= |s| && s[p..p + 2] == U16(n)
    ensures GetU16(s, p) == n % 0x1_0000
  {
    assert s[p..p + 2][0] == s[p] && s[p..p + 2][1] == s[p + 1];
    assert n / 0x100 % 0x100 * 0x100 + n % 0x100 == n % 0x1_0000;
  }

  /** Reading back what htonl wrote gives the value modulo 2^32, wherever it lies. */
  lemma U32RoundTrip(n: nat, s: seq<Byte>, p: nat)
    requires p + 4 <= |s| && s[p..p + 4] == U32(n)
    ensures GetU32(s, p) == n % 0x1_0000_0000
  {
    var hi, lo := U16(n / 0x1_0000), U16(n);
    assert s[p] == s[p..p + 4][0] == hi[0] && s[p + 1] == s[p..p + 4][1] == hi[1];
    assert s[p + 2] == s[p..p + 4][2] == lo[0] && s[p + 3] == s[p..p + 4][3] == lo[1];
    assert s[p..p + 2] == hi && s[p + 2..p + 4] == lo;
    U16RoundTrip(n / 0x1_0000, s, p);
    U16RoundTrip(n, s, p + 2);
    assert n / 0x1_0000 % 0x1_0000 * 0x1_0000 + n % 0x1_0000 == n % 0x1_0000_0000;
  }

  /** The same for a field behind and before other bytes. */
  lemma U32At(front: seq<Byte>, n: nat, rest: seq<Byte>)
    ensures GetU32(front + U32(n) + rest, |front|) == n % 0x1_0000_0000
  {
    var p := front + U32(n) + rest;
    assert p[|front|..|front| + 4] == U32(n);
    U32RoundTrip(n, p, |front|);
  }

  /** The concatenation of a list of blocks. */
  function Flatten(blocks: seq<seq<Byte>>): seq<Byte> {
    if blocks == [] then [] else Flatten(blocks[..|blocks| - 1]) + blocks[|blocks| - 1]
  }

  lemma FlattenLast(a: seq<seq<Byte>>, b: seq<Byte>)
    ensures Flatten(a + [b]) == Flatten(a) + b
  {
  }

  lemma {:induction false} FlattenAppend(a: seq<seq<Byte>>, b: seq<seq<Byte>>)
    ensures Flatten(a + b) == Flatten(a) + Flatten(b)
  {
    if b == [] {
      assert a + b == a;
    } else {
      var n := |b| - 1;
      FlattenAppend(a, b[..n]);
      assert (a + b)[..|a + b| - 1] == a + b[..n];
      assert Flatten(a) + (Flatten(b[..n]) + b[n]) == Flatten(a) + Flatten(b[..n]) + b[n];
    }
  }
}
