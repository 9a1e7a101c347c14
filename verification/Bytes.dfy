/** Bytes and the little-endian integers that BSON stores in them. */
module Bytes {
  import opened Wrappers

  type byte = x: int | 0 <= x < 256
  type int32 = x: int | -0x8000_0000 <= x < 0x8000_0000
  type int64 = x: int | -0x8000_0000_0000_0000 <= x < 0x8000_0000_0000_0000
  type uint64 = x: int | 0 <= x < 0x1_0000_0000_0000_0000

  /** A NUL-free byte string: what can stand before the terminator of a C string. */
  type cstring = s: seq<byte> | 0 !in s

  const INT32_LIMIT: nat := 0x8000_0000

  /** 256 to the power k. */
  function Pow256(k: nat): (r: nat)
    ensures r >= 1
  {
    if k == 0 then 1 else 256 * Pow256(k - 1)
  }

  lemma Pow256At4And8()
    ensures Pow256(4) == 0x1_0000_0000
    ensures Pow256(8) == 0x1_0000_0000_0000_0000
  {
    assert Pow256(2) == 65536;
    assert Pow256(4) == 256 * (256 * Pow256(2));
    assert Pow256(6) == 256 * (256 * Pow256(4));
    assert Pow256(8) == 256 * (256 * Pow256(6));
  }

  /** The k low-order bytes of n, least significant first. */
  function ToLittleEndian(n: nat, k: nat): (s: seq<byte>)
    ensures |s| == k
  {
    if k == 0 then [] else [n % 256] + ToLittleEndian(n / 256, k - 1)
  }

  function FromLittleEndian(s: seq<byte>): (n: nat)
    ensures n < Pow256(|s|)
  {
    if s == [] then 0 else s[0] + 256 * FromLittleEndian(s[1..])
  }

  lemma {:induction false} FromToLittleEndian(n: nat, k: nat)
    requires n < Pow256(k)
    ensures FromLittleEndian(ToLittleEndian(n, k)) == n
  {
    if k > 0 {
      FromToLittleEndian(n / 256, k - 1);
      assert ToLittleEndian(n, k)[1..] == ToLittleEndian(n / 256, k - 1);
    }
  }

  lemma {:induction false} ToFromLittleEndian(s: seq<byte>)
    ensures ToLittleEndian(FromLittleEndian(s), |s|) == s
  {
    if s != [] {
      ToFromLittleEndian(s[1..]);
      var n := FromLittleEndian(s);
      assert n % 256 == s[0] && n / 256 == FromLittleEndian(s[1..]);
      assert s == [s[0]] + s[1..];
    }
  }

  /** Two's complement of width 32, and its inverse; every int wraps into the width. */
  function ToUnsigned32(x: int): (n: nat)
    ensures n < 0x1_0000_0000
  {
    x % 0x1_0000_0000
  }

  function ToSigned32(n: nat): (x: int32)
    requires n < 0x1_0000_0000
    ensures ToUnsigned32(x) == n
  {
    if n < 0x8000_0000 then n else n - 0x1_0000_0000
  }

  function ToUnsigned64(x: int): (n: uint64) {
    x % 0x1_0000_0000_0000_0000
  }

  function ToSigned64(n: uint64): (x: int64)
    ensures ToUnsigned64(x) == n
  {
    if n < 0x8000_0000_0000_0000 then n else n - 0x1_0000_0000_0000_0000
  }

  lemma SignedOfUnsigned32(x: int32)
    ensures ToSigned32(ToUnsigned32(x)) == x
  {
  }

  lemma SignedOfUnsigned64(x: int64)
    ensures ToSigned64(ToUnsigned64(x)) == x
  {
  }

  /** The four bytes that appendNum(int) writes. */
  function Int32Bytes(x: int): (s: seq<byte>)
    ensures |s| == 4
  {
    ToLittleEndian(ToUnsigned32(x), 4)
  }

  /** readLE<int> on four bytes. */
  function ReadInt32(s: seq<byte>): (x: int32)
    requires |s| == 4
  {
    Pow256At4And8();
    ToSigned32(FromLittleEndian(s))
  }

  lemma ReadInt32OfBytes(x: int32)
    ensures ReadInt32(Int32Bytes(x)) == x
  {
    Pow256At4And8();
    FromToLittleEndian(ToUnsigned32(x), 4);
  }

  lemma Int32BytesOfRead(s: seq<byte>)
    requires |s| == 4
    ensures Int32Bytes(ReadInt32(s)) == s
  {
    Pow256At4And8();
    ToFromLittleEndian(s);
  }

  function Uint64Bytes(n: uint64): (s: seq<byte>)
    ensures |s| == 8
  {
    ToLittleEndian(n, 8)
  }

  function ReadUint64(s: seq<byte>): (n: uint64)
    requires |s| == 8
  {
    Pow256At4And8();
    FromLittleEndian(s)
  }

  lemma ReadUint64OfBytes(n: uint64)
    ensures ReadUint64(Uint64Bytes(n)) == n
  {
    Pow256At4And8();
    FromToLittleEndian(n, 8);
  }

  lemma Uint64BytesOfRead(s: seq<byte>)
    requires |s| == 8
    ensures Uint64Bytes(ReadUint64(s)) == s
  {
    ToFromLittleEndian(s);
  }

  /** x stands at position p of b. */
  predicate Holds(b: seq<byte>, p: nat, x: seq<byte>) {
    p + |x| <= |b| && b[p..p + |x|] == x
  }

  lemma HoldsByte(b: seq<byte>, p: nat, x: byte)
    ensures Holds(b, p, [x]) <==> p < |b| && b[p] == x
  {
    if p < |b| {
      assert b[p..p + 1] == [b[p]];
    }
  }

  lemma HoldsSplit(b: seq<byte>, p: nat, x: seq<byte>, y: seq<byte>)
    ensures Holds(b, p, x + y) <==> Holds(b, p, x) && Holds(b, p + |x|, y)
  {
    if p + |x| + |y| <= |b| {
      assert b[p..p + |x + y|] == b[p..p + |x|] + b[p + |x|..p + |x| + |y|];
      if Holds(b, p, x + y) {
        assert x == (x + y)[..|x|] && y == (x + y)[|x|..];
      }
    }
  }

  /** The first NUL at or after p (memchr, strlen). */
  function FindNul(b: seq<byte>, p: nat): (r: Option<nat>)
    requires p <= |b|
    ensures r.Some? ==> p <= r.value < |b| && b[r.value] == 0
    ensures r.Some? ==> forall i :: p <= i < r.value ==> b[i] != 0
    ensures r.None? ==> forall i :: p <= i < |b| ==> b[i] != 0
    decreases |b| - p
  {
    if p == |b| then None
    else if b[p] == 0 then Some(p)
    else FindNul(b, p + 1)
  }

  lemma FindNulUnique(b: seq<byte>, p: nat, s: cstring)
    requires Holds(b, p, s + [0])
    ensures FindNul(b, p) == Some(p + |s|)
  {
    HoldsSplit(b, p, s, [0]);
    assert b[p + |s|..p + |s| + 1][0] == b[p + |s|];
    assert forall i :: p <= i < p + |s| ==> b[i] == b[p..p + |s|][i - p];
  }

  lemma FindNulHolds(b: seq<byte>, p: nat)
    requires p <= |b| && FindNul(b, p).Some?
    ensures var q := FindNul(b, p).value; 0 !in b[p..q] && Holds(b, p, b[p..q] + [0])
  {
    var q := FindNul(b, p).value;
    assert b[p..q + 1] == b[p..q] + [0];
  }
}
