// Fixed-width integers and their big-endian byte form, as Go's encoding/binary
// writes and reads them.

module Bytes {
  type byte = x: int | 0 <= x < 256
  type int8 = x: int | -0x80 <= x < 0x80
  type int16 = x: int | -0x8000 <= x < 0x8000
  type int32 = x: int | -0x8000_0000 <= x < 0x8000_0000
  type int64 = x: int | -0x8000_0000_0000_0000 <= x < 0x8000_0000_0000_0000

  function Pow256(n: nat): (p: nat)
    ensures p >= 1
  {
    if n == 0 then 1 else 256 * Pow256(n - 1)
  }

  // The n low-order bytes of v, most significant first.
  function Unsigned(v: nat, n: nat): (s: seq<byte>)
    ensures |s| == n
  {
    if n == 0 then [] else Unsigned(v / 256, n - 1) + [v % 256]
  }

  function ToNat(s: seq<byte>): (v: nat)
    ensures v < Pow256(|s|)
  {
    if s == [] then 0 else 256 * ToNat(s[..|s| - 1]) + s[|s| - 1]
  }

  lemma {:induction false} ToNatOfUnsigned(v: nat, n: nat)
    requires v < Pow256(n)
    ensures ToNat(Unsigned(v, n)) == v
  {
    if n > 0 {
      ToNatOfUnsigned(v / 256, n - 1);
      var s := Unsigned(v, n);
      assert s[..n - 1] == Unsigned(v / 256, n - 1);
    }
  }

  lemma {:induction false} UnsignedOfToNat(s: seq<byte>)
    ensures Unsigned(ToNat(s), |s|) == s
  {
    if s != [] {
      var front := s[..|s| - 1];
      UnsignedOfToNat(front);
      assert ToNat(s) / 256 == ToNat(front);
      assert s == front + [s[|s| - 1]];
    }
  }

  // A conversion such as int32(n) in Go: keep the low bits, read them as signed.
  function Wrap8(n: int): int8 { (n + 0x80) % 0x100 - 0x80 }
  function Wrap16(n: int): int16 { (n + 0x8000) % 0x1_0000 - 0x8000 }
  function Wrap32(n: int): int32 { (n + 0x8000_0000) % 0x1_0000_0000 - 0x8000_0000 }
  function Wrap64(n: int): int64 {
    (n + 0x8000_0000_0000_0000) % 0x1_0000_0000_0000_0000 - 0x8000_0000_0000_0000
  }

  lemma {:induction false} Pow256Values()
    ensures Pow256(1) == 0x100
    ensures Pow256(2) == 0x1_0000
    ensures Pow256(4) == 0x1_0000_0000
    ensures Pow256(8) == 0x1_0000_0000_0000_0000
  {
    assert Pow256(2) == 256 * Pow256(1);
    assert Pow256(4) == 256 * Pow256(3) && Pow256(3) == 256 * Pow256(2);
    assert Pow256(6) == 256 * Pow256(5) && Pow256(5) == 256 * Pow256(4);
    assert Pow256(8) == 256 * Pow256(7) && Pow256(7) == 256 * Pow256(6);
  }

  // Two's complement over |s| bytes.
  function Signed(s: seq<byte>): (i: int)
    requires |s| > 0
  {
    var v := ToNat(s);
    if v < Pow256(|s|) / 2 then v else v - Pow256(|s|)
  }

  function Complement(i: int, n: nat): (s: seq<byte>)
    requires n > 0 && -(Pow256(n) / 2) <= i < Pow256(n) / 2
    ensures |s| == n
  {
    Unsigned(if i < 0 then i + Pow256(n) else i, n)
  }

  lemma {:induction false} SignedOfComplement(i: int, n: nat)
    requires n > 0 && -(Pow256(n) / 2) <= i < Pow256(n) / 2
    ensures Signed(Complement(i, n)) == i
  {
    assert Pow256(n) == 256 * Pow256(n - 1);
    ToNatOfUnsigned(if i < 0 then i + Pow256(n) else i, n);
  }

  lemma {:induction false} ComplementOfSigned(s: seq<byte>)
    requires |s| > 0
    ensures -(Pow256(|s|) / 2) <= Signed(s) < Pow256(|s|) / 2
    ensures Complement(Signed(s), |s|) == s
  {
    var v, p := ToNat(s), Pow256(|s|);
    assert p == 2 * (p / 2) by { assert p == 256 * Pow256(|s| - 1); }
    UnsignedOfToNat(s);
    assert (if Signed(s) < 0 then Signed(s) + p else Signed(s)) == v;
  }

  function I8(i: int8): (s: seq<byte>)
    ensures |s| == 1 && AsI8(s) == i
  {
    Pow256Values(); SignedOfComplement(i, 1);
    Complement(i, 1)
  }

  function I16(i: int16): (s: seq<byte>)
    ensures |s| == 2 && AsI16(s) == i
  {
    Pow256Values(); SignedOfComplement(i, 2);
    Complement(i, 2)
  }

  function I32(i: int32): (s: seq<byte>)
    ensures |s| == 4 && AsI32(s) == i
  {
    Pow256Values(); SignedOfComplement(i, 4);
    Complement(i, 4)
  }

  function I64(i: int64): (s: seq<byte>)
    ensures |s| == 8 && AsI64(s) == i
  {
    Pow256Values(); SignedOfComplement(i, 8);
    Complement(i, 8)
  }

  function AsI8(s: seq<byte>): int8
    requires |s| == 1
  {
    Pow256Values(); Signed(s)
  }

  function AsI16(s: seq<byte>): int16
    requires |s| == 2
  {
    Pow256Values(); Signed(s)
  }

  function AsI32(s: seq<byte>): int32
    requires |s| == 4
  {
    Pow256Values(); Signed(s)
  }

  function AsI64(s: seq<byte>): int64
    requires |s| == 8
  {
    Pow256Values(); Signed(s)
  }

  // Four bytes determine the integer and the integer determines the bytes.
  lemma {:induction false} I32OfAsI32(s: seq<byte>)
    requires |s| == 4
    ensures I32(AsI32(s)) == s
  {
    Pow256Values(); ComplementOfSigned(s);
  }

  lemma {:induction false} I64OfAsI64(s: seq<byte>)
    requires |s| == 8
    ensures I64(AsI64(s)) == s
  {
    Pow256Values(); ComplementOfSigned(s);
  }

  function Min(a: int, b: int): int { if a < b then a else b }

  function Max(a: int, b: int): int { if a < b then b else a }

  function Zeros(n: nat): (s: seq<byte>)
    ensures |s| == n && forall i :: 0 <= i < n ==> s[i] == 0
  {
    seq(n, _ => 0)
  }

  // The first n bytes of s, padded with zeros when s is too short: what
  // MappedByteBuffer.Read leaves in a freshly made n-byte slice.
  function Padded(s: seq<byte>, n: nat): (r: seq<byte>)
    ensures |r| == n
    ensures n <= |s| ==> r == s[..n]
  {
    if n <= |s| then s[..n] else s + Zeros(n - |s|)
  }

  // s carries t at position p.
  ghost predicate At(s: seq<byte>, p: nat, t: seq<byte>) {
    p + |t| <= |s| && s[p..p + |t|] == t
  }

  lemma {:induction false} AtSplit(s: seq<byte>, p: nat, t: seq<byte>, u: seq<byte>)
    requires At(s, p, t + u)
    ensures At(s, p, t) && At(s, p + |t|, u)
  {
    assert s[p..p + |t|] == (t + u)[..|t|];
    assert s[p + |t|..p + |t| + |u|] == (t + u)[|t|..];
  }

  lemma {:induction false} AtExtend(s: seq<byte>, p: nat, t: seq<byte>, u: seq<byte>)
    requires At(s, p, t)
    ensures At(s + u, p, t)
  {
    assert (s + u)[p..p + |t|] == s[p..p + |t|];
  }

  lemma {:induction false} AtPrefix(s: seq<byte>, t: seq<byte>, p: nat, u: seq<byte>)
    requires |t| <= |s| && s[..|t|] == t && At(t, p, u)
    ensures At(s, p, u)
  {
    assert s[p..p + |u|] == s[..|t|][p..p + |u|];
  }

  lemma {:induction false} AtInner(s: seq<byte>, p: nat, t: seq<byte>, q: nat, u: seq<byte>)
    requires At(s, p, t) && At(s, p + q, u) && q + |u| <= |t|
    ensures At(t, q, u)
  {
    forall i | 0 <= i < |u|
      ensures t[q..q + |u|][i] == u[i]
    {
      assert t[q + i] == s[p..p + |t|][q + i] == s[p + q + i];
      assert s[p + q..p + q + |u|][i] == s[p + q + i];
    }
  }

  lemma {:induction false} SliceOfSlice(s: seq<byte>, a: nat, b: nat, p: nat, q: nat)
    requires a <= b <= |s| && p <= q <= b - a
    ensures s[a..b][p..q] == s[a + p..a + q]
  {
    var u, v := s[a..b][p..q], s[a + p..a + q];
    forall i | 0 <= i < q - p ensures u[i] == v[i] {
      assert u[i] == s[a..b][p + i];
    }
  }

  lemma {:induction false} TailOfTail(s: seq<byte>, a: nat, d: nat)
    requires a + d <= |s|
    ensures s[a..][d..] == s[a + d..]
  {
    var u, v := s[a..][d..], s[a + d..];
    forall i | 0 <= i < |v| ensures u[i] == v[i] {
      assert u[i] == s[a..][d + i];
    }
  }
}
