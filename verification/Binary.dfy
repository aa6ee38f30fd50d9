/** Bytes and the little-endian integers of the wire format. */
module Binary {

  type byte = x: int | 0 <= x < 0x100
  type Bytes = seq<byte>

  type u32 = x: int | 0 <= x < 0x1_0000_0000
  type u64 = x: int | 0 <= x < 0x1_0000_0000_0000_0000

  const TWO_16: int := 0x1_0000
  const TWO_32: int := 0x1_0000_0000
  const TWO_64: int := 0x1_0000_0000_0000_0000

  function Pow256(n: nat): (p: nat)
    ensures p > 0
  {
    if n == 0 then 1 else 256 * Pow256(n - 1)
  }

  lemma Pow256Values()
    ensures Pow256(2) == TWO_16 && Pow256(4) == TWO_32 && Pow256(8) == TWO_64
  {
    assert Pow256(4) == 256 * (256 * Pow256(2));
    assert Pow256(8) == 256 * (256 * (256 * (256 * Pow256(4))));
  }

  /** The `n` low bytes of `v`, least significant first. */
  function Pack(v: nat, n: nat): (s: Bytes)
    ensures |s| == n
  {
    if n == 0 then [] else [v % 256] + Pack(v / 256, n - 1)
  }

  function Unpack(s: Bytes): (v: nat)
    ensures v < Pow256(|s|)
  {
    if s == [] then 0 else s[0] + 256 * Unpack(s[1..])
  }

  lemma {:induction false} UnpackPack(v: nat, n: nat)
    requires v < Pow256(n)
    ensures Unpack(Pack(v, n)) == v
  {
    if n > 0 {
      UnpackPack(v / 256, n - 1);
      assert Pack(v, n)[1..] == Pack(v / 256, n - 1);
    }
  }

  lemma {:induction false} PackUnpack(s: Bytes)
    ensures Pack(Unpack(s), |s|) == s
  {
    if s != [] {
      PackUnpack(s[1..]);
      assert s == [s[0]] + s[1..];
    }
  }

  function Zeros(n: nat): (s: Bytes)
    ensures |s| == n
  {
    seq(n, _ => 0)
  }

  /** `s` with the bytes from `at` on overwritten by `x`: a store into a vector that is already large enough. */
  function Splice(s: Bytes, at: nat, x: Bytes): (r: Bytes)
    requires at + |x| <= |s|
    ensures |r| == |s|
  {
    s[..at] + x + s[at + |x|..]
  }

  lemma SpliceMiddle(left: Bytes, hole: Bytes, right: Bytes, x: Bytes)
    requires |hole| == |x|
    ensures Splice(left + hole + right, |left|, x) == left + x + right
  {
    var s := left + hole + right;
    assert s[..|left|] == left;
    assert s[|left| + |x|..] == right;
  }

  lemma SpliceBehind(left: Bytes, s: Bytes, at: nat, x: Bytes)
    requires at + |x| <= |s|
    ensures Splice(left + s, |left| + at, x) == left + Splice(s, at, x)
  {
    assert (left + s)[..|left| + at] == left + s[..at];
    assert (left + s)[|left| + at + |x|..] == s[at + |x|..];
  }
}
