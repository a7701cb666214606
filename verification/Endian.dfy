/** Fixed-width integers as bytes: network (big-endian) and host (little-endian) order,
    and two's complement. */
module Endian {
  import opened Bytes

  function Pow256(w: nat): (r: nat)
    ensures r > 0
  {
    if w == 0 then 1 else 256 * Pow256(w - 1)
  }

  /** The widths in use. */
  lemma {:induction false} Powers()
    ensures Pow256(1) == 0x100 && Pow256(2) == 0x1_0000 && Pow256(4) == 0x1_0000_0000
    ensures Pow256(8) == 0x1_0000_0000_0000_0000
  {
    assert Pow256(4) == 256 * Pow256(3) && Pow256(3) == 256 * Pow256(2);
    assert Pow256(8) == 256 * Pow256(7) && Pow256(7) == 256 * Pow256(6);
    assert Pow256(6) == 256 * Pow256(5) && Pow256(5) == 256 * Pow256(4);
  }

  function ToBE(n: nat, w: nat): (s: Buffer)
    ensures |s| == w
  {
    if w == 0 then [] else ToBE(n / 256, w - 1) + [n % 256]
  }

  function FromBE(s: Buffer): nat {
    if s == [] then 0 else FromBE(s[..|s| - 1]) * 256 + s[|s| - 1]
  }

  function ToLE(n: nat, w: nat): (s: Buffer)
    ensures |s| == w
  {
    if w == 0 then [] else [n % 256] + ToLE(n / 256, w - 1)
  }

  function FromLE(s: Buffer): nat {
    if s == [] then 0 else s[0] + 256 * FromLE(s[1..])
  }

  /** A number that fits its width reads back from either order. */
  lemma {:induction false} BigEndianReadsBack(n: nat, w: nat)
    requires n < Pow256(w)
    ensures FromBE(ToBE(n, w)) == n
  {
    if w > 0 {
      BigEndianReadsBack(n / 256, w - 1);
      assert ToBE(n, w)[..w - 1] == ToBE(n / 256, w - 1);
    }
  }

  lemma {:induction false} LittleEndianReadsBack(n: nat, w: nat)
    requires n < Pow256(w)
    ensures FromLE(ToLE(n, w)) == n
  {
    if w > 0 {
      LittleEndianReadsBack(n / 256, w - 1);
      assert ToLE(n, w)[1..] == ToLE(n / 256, w - 1);
    }
  }

  lemma {:induction false} FromBEBound(s: Buffer)
    ensures FromBE(s) < Pow256(|s|)
  {
    if s != [] { FromBEBound(s[..|s| - 1]); }
  }

  /** Two's complement of width w. */
  predicate InSigned(v: int, w: nat) {
    var span: int := Pow256(w);
    -span <= 2 * v < span
  }

  function ToUnsigned(v: int, w: nat): (n: nat)
    requires InSigned(v, w)
    ensures n < Pow256(w) && ToSigned(n, w) == v
  {
    if v < 0 then v + Pow256(w) else v
  }

  function ToSigned(n: nat, w: nat): (v: int)
  {
    if 2 * n >= Pow256(w) then n - Pow256(w) else n
  }

  // ---------------------------------------------------------------- fields on the wire

  function UIntAt(src: Buffer, p: nat, w: nat): nat
    requires p + w <= |src|
  {
    FromBE(src[p..p + w])
  }

  function IntAt(src: Buffer, p: nat, w: nat): int
    requires p + w <= |src|
  {
    ToSigned(FromBE(src[p..p + w]), w)
  }

  lemma {:induction false} UIntReadsBack(src: Buffer, p: nat, n: nat, w: nat)
    requires n < Pow256(w) && At(src, p, ToBE(n, w))
    ensures UIntAt(src, p, w) == n
  {
    AtSlice(src, p, ToBE(n, w));
    BigEndianReadsBack(n, w);
  }

  lemma {:induction false} IntReadsBack(src: Buffer, p: nat, v: int, w: nat)
    requires InSigned(v, w) && At(src, p, ToBE(ToUnsigned(v, w), w))
    ensures IntAt(src, p, w) == v
  {
    UIntReadsBack(src, p, ToUnsigned(v, w), w);
  }
}
