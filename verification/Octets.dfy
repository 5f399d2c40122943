/**
  Octets as they go through a checksum: as bits in the order in which they are sent, in buffers, and in
  strings that end with a NUL.
 */
module Octets {
  type Byte = bv8

  /** The bits of a byte in the order in which they are sent, least significant first. */
  function ByteBits(b: Byte): (bits: seq<bool>)
    ensures |bits| == 8
  {
    [b & 1 != 0, b & 2 != 0, b & 4 != 0, b & 8 != 0, b & 16 != 0, b & 32 != 0, b & 64 != 0, b & 128 != 0]
  }

  lemma ByteBitsInjective(a: Byte, b: Byte)
    requires ByteBits(a) == ByteBits(b)
    ensures a == b
  {
    assert ByteBits(a)[0] == ByteBits(b)[0] && ByteBits(a)[1] == ByteBits(b)[1];
    assert ByteBits(a)[2] == ByteBits(b)[2] && ByteBits(a)[3] == ByteBits(b)[3];
    assert ByteBits(a)[4] == ByteBits(b)[4] && ByteBits(a)[5] == ByteBits(b)[5];
    assert ByteBits(a)[6] == ByteBits(b)[6] && ByteBits(a)[7] == ByteBits(b)[7];
  }

  function Bits(data: seq<Byte>): (bits: seq<bool>)
    ensures |bits| == 8 * |data|
  {
    if data == [] then [] else Bits(data[..|data| - 1]) + ByteBits(data[|data| - 1])
  }

  lemma {:induction false} BitsAt(data: seq<Byte>, i: nat)
    requires i < |data|
    ensures Bits(data)[8 * i..8 * i + 8] == ByteBits(data[i])
    decreases |data|
  {
    hide ByteBits;
    var n := |data| - 1;
    if i < n {
      BitsAt(data[..n], i);
      assert Bits(data)[8 * i..8 * i + 8] == Bits(data[..n])[8 * i..8 * i + 8];
    }
  }

  lemma BitsDiffer(a: seq<Byte>, b: seq<Byte>)
    requires |a| == |b| && a != b
    ensures Bits(a) != Bits(b)
  {
    hide Bits, ByteBits;
    var k :| 0 <= k < |a| && a[k] != b[k];
    BitsAt(a, k);
    BitsAt(b, k);
    if ByteBits(a[k]) == ByteBits(b[k]) {
      ByteBitsInjective(a[k], b[k]);
    }
  }

  function Flatten(iov: seq<seq<Byte>>): seq<Byte> {
    if iov == [] then [] else Flatten(iov[..|iov| - 1]) + iov[|iov| - 1]
  }

  /** Buffers one behind the other are their bytes one behind the other. */
  lemma {:induction false} FlattenBoth(a: seq<seq<Byte>>, b: seq<seq<Byte>>, x: seq<Byte>)
    ensures Flatten(a + b) == Flatten(a) + Flatten(b) && Flatten([x]) == x
    decreases |b|
  {
    assert [x][..0] == [];
    if b == [] {
      assert a + b == a;
    } else {
      assert (a + b)[..|a + b| - 1] == a + b[..|b| - 1];
      FlattenBoth(a, b[..|b| - 1], x);
    }
  }

  /** What a pointer to characters means: everything before the first NUL. */
  function UpToNul(s: seq<Byte>): (t: seq<Byte>)
    requires 0 in s
    ensures |t| < |s| && t == s[..|t|] && s[|t|] == 0 && 0 !in t
  {
    if s[0] == 0 then [] else [s[0]] + UpToNul(s[1..])
  }

  lemma {:induction false} UpToNulIs(s: seq<Byte>, n: nat)
    requires n < |s| && s[n] == 0 && 0 !in s[..n]
    ensures UpToNul(s) == s[..n]
    decreases n
  {
    if n > 0 {
      assert s[0] == s[..n][0] && s[..n] == [s[0]] + s[1..][..n - 1];
      UpToNulIs(s[1..], n - 1);
    }
  }
}
