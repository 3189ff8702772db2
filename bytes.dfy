/** Byte-level helpers shared by the frame store and the predicate evaluator:
    little-endian integers as the x86 build lays them out, C strings
    inside fixed-width character arrays, and the effect of a positioned
    write on a file's contents. */
module Bytes {

  /** One byte of the file or of a record image, read as unsigned char. */
  type byte = b: int | 0 <= b < 256

  /** The contents of a std::string, byte for byte. */
  type Name = seq<byte>

  function Pow256(n: nat): (r: nat)
    ensures r >= 1
  {
    if n == 0 then 1 else 256 * Pow256(n - 1)
  }

  lemma Pow256Values()
    ensures Pow256(1) == 0x100 && Pow256(2) == 0x1_0000 && Pow256(4) == 0x1_0000_0000
    ensures Pow256(8) == 0x1_0000_0000_0000_0000
  {
    assert Pow256(2) == 256 * Pow256(1);
    assert Pow256(4) == 256 * 256 * Pow256(2);
    assert Pow256(8) == 256 * 256 * 256 * 256 * Pow256(4);
  }

  /** Half the range of an `n`-byte integer: the least value a signed
      `n`-byte integer cannot hold. */
  function Half(n: nat): (h: int)
    requires n >= 1
    ensures h >= 1 && Pow256(n) == 2 * h
  {
    128 * Pow256(n - 1)
  }

  /** Unsigned little-endian reading of `bs` (memcpy into an unsigned integer). */
  function LeNat(bs: seq<byte>): (v: nat)
    ensures v < Pow256(|bs|)
  {
    if bs == [] then 0 else bs[0] + 256 * LeNat(bs[1..])
  }

  /** The `n` little-endian bytes of `v`. */
  function NatLe(v: nat, n: nat): (bs: seq<byte>)
    requires v < Pow256(n)
    ensures |bs| == n
  {
    if n == 0 then [] else [v % 256] + NatLe(v / 256, n - 1)
  }

  lemma {:induction false} NatLeRoundTrip(v: nat, n: nat)
    requires v < Pow256(n)
    ensures LeNat(NatLe(v, n)) == v
  {
    if n > 0 {
      var q, m := v / 256, v % 256;
      assert v == 256 * q + m && 0 <= m < 256;
      assert Pow256(n) == 256 * Pow256(n - 1);
      assert q < Pow256(n - 1);
      var bs := NatLe(v, n);
      assert bs == [m] + NatLe(q, n - 1);
      NatLeRoundTrip(q, n - 1);
      assert bs[1..] == NatLe(q, n - 1);
    }
  }

  lemma {:induction false} LeNatRoundTrip(bs: seq<byte>)
    ensures NatLe(LeNat(bs), |bs|) == bs
  {
    if bs != [] {
      var v, w, b := LeNat(bs), LeNat(bs[1..]), bs[0];
      assert v == b + 256 * w && b < 256;
      assert v % 256 == b && v / 256 == w;
      LeNatRoundTrip(bs[1..]);
    }
  }

  /** Two's-complement reading of an `n`-byte unsigned value (a signed memcpy). */
  function Signed(u: nat, n: nat): (v: int)
    requires 1 <= n && u < Pow256(n)
    ensures -Half(n) <= v < Half(n)
    ensures v == u || v == u - Pow256(n)
  {
    if u < Half(n) then u else u - Pow256(n)
  }

  /** Two's-complement encoding of `v` in `n` bytes (conversion to unsigned). */
  function Unsigned(v: int, n: nat): (u: nat)
    requires 1 <= n && -Half(n) <= v < Half(n)
    ensures u < Pow256(n)
    ensures u == v || u == v + Pow256(n)
  {
    if v < 0 then v + Pow256(n) else v
  }

  lemma SignedUnsigned(v: int, n: nat)
    requires 1 <= n && -Half(n) <= v < Half(n)
    ensures Signed(Unsigned(v, n), n) == v
  {
  }

  /** A signed little-endian integer of |bs| bytes. */
  function LeInt(bs: seq<byte>): int
    requires |bs| >= 1
  {
    Signed(LeNat(bs), |bs|)
  }

  /** The `n`-byte little-endian two's-complement image of `v`. */
  function IntLe(v: int, n: nat): (bs: seq<byte>)
    requires 1 <= n && -Half(n) <= v < Half(n)
    ensures |bs| == n
  {
    NatLe(Unsigned(v, n), n)
  }

  lemma IntLeRoundTrip(v: int, n: nat)
    requires 1 <= n && -Half(n) <= v < Half(n)
    ensures LeInt(IntLe(v, n)) == v
  {
    NatLeRoundTrip(Unsigned(v, n), n);
  }

  /** The std::string built from a NUL-terminated character array: the bytes
      before the first zero byte (all of them when there is none). */
  function CString(raw: seq<byte>): (s: Name)
    ensures |s| <= |raw| && s == raw[..|s|]
    ensures forall i :: 0 <= i < |s| ==> s[i] != 0
    ensures |s| < |raw| ==> raw[|s|] == 0
  {
    if raw == [] || raw[0] == 0 then [] else [raw[0]] + CString(raw[1..])
  }

  function Zeros(n: nat): (z: seq<byte>)
    ensures |z| == n && forall i :: 0 <= i < n ==> z[i] == 0
  {
    seq(n, _ => 0)
  }

  lemma {:induction false} LeNatOfZeros(n: nat)
    ensures LeNat(Zeros(n)) == 0
  {
    if n > 0 {
      assert Zeros(n)[1..] == Zeros(n - 1);
      LeNatOfZeros(n - 1);
    }
  }

  lemma CStringOfZeros(n: nat)
    ensures CString(Zeros(n)) == []
  {
  }

  /** The contents of a file after writing `bs` at offset `at`: bytes in
      range are replaced, the file grows when the write passes its end, and a
      write that starts past the end leaves a hole that reads as zeros.
      Also used for memcpy into a buffer, where the write is in range. */
  function Write(s: seq<byte>, at: nat, bs: seq<byte>): (r: seq<byte>)
    ensures |r| == if at + |bs| <= |s| then |s| else at + |bs|
    ensures r[at..at + |bs|] == bs
    ensures forall i :: 0 <= i < |s| && !(at <= i < at + |bs|) ==> r[i] == s[i]
    ensures forall i :: |s| <= i < at ==> r[i] == 0
  {
    if at + |bs| <= |s| then s[..at] + bs + s[at + |bs|..]
    else if at <= |s| then s[..at] + bs
    else s + Zeros(at - |s|) + bs
  }
}
