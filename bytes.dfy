/** Fixed-width unsigned integers and their big-endian byte encoding, as
    provided to the codec by Go's `encoding/binary.BigEndian`. */
module Bytes {

  type Byte = x: int | 0 <= x < 0x100
  type U16 = x: int | 0 <= x < 0x1_0000
  type U64 = x: int | 0 <= x < 0x1_0000_0000_0000_0000

  /** 256 to the power n: the number of values n bytes can hold. */
  function Pow256(n: nat): (p: nat)
    ensures p >= 1
  {
    if n == 0 then 1 else 256 * Pow256(n - 1)
  }

  /** The n low-order bytes of v, most significant first. Bytes above
      the n-th are dropped, as a Go conversion to a narrower type does. */
  function BE(v: nat, n: nat): (s: seq<Byte>)
    ensures |s| == n
  {
    if n == 0 then [] else BE(v / 256, n - 1) + [v % 256]
  }

  /** The unsigned value of a big-endian byte string. */
  function FromBE(s: seq<Byte>): (v: nat)
    ensures v < Pow256(|s|)
  {
    if s == [] then 0 else FromBE(s[..|s| - 1]) * 256 + s[|s| - 1]
  }

  lemma {:induction false} FromBEOfBE(v: nat, n: nat)
    requires v < Pow256(n)
    ensures FromBE(BE(v, n)) == v
  {
    if n > 0 {
      DivBound(v, Pow256(n - 1));
      FromBEOfBE(v / 256, n - 1);
      FromBESnoc(BE(v / 256, n - 1), v % 256);
    }
  }

  lemma FromBESnoc(p: seq<Byte>, b: Byte)
    ensures FromBE(p + [b]) == FromBE(p) * 256 + b
  {
    assert (p + [b])[..|p|] == p;
  }

  lemma DivBound(v: nat, p: nat)
    requires v < 256 * p
    ensures v / 256 < p && v / 256 * 256 + v % 256 == v
  {
  }

  lemma {:induction false} BEOfFromBE(s: seq<Byte>)
    ensures BE(FromBE(s), |s|) == s
  {
    if s != [] {
      var n := |s|;
      var v := FromBE(s);
      var p := s[..n - 1];
      assert v / 256 == FromBE(p) && v % 256 == s[n - 1];
      BEOfFromBE(p);
      assert s == p + [s[n - 1]];
    }
  }

  /** Go's binary.BigEndian.PutUint16 of a uint16 value. */
  function U16BE(v: U16): (s: seq<Byte>)
    ensures |s| == 2 && FromBE(s) == v
  {
    FromBEOfBE(v, 2);
    BE(v, 2)
  }

  /** Go's binary.BigEndian.PutUint64 of a uint64 value. */
  function U64BE(v: U64): (s: seq<Byte>)
    ensures |s| == 8 && FromBE(s) == v
  {
    assert Pow256(8) == 0x1_0000_0000_0000_0000;
    FromBEOfBE(v, 8);
    BE(v, 8)
  }

  /** Go's binary.BigEndian.Uint16(b[off:]). */
  function ReadU16(b: seq<Byte>, off: nat): (v: U16)
    requires off + 2 <= |b|
    ensures U16BE(v) == b[off..off + 2]
  {
    BEOfFromBE(b[off..off + 2]);
    FromBE(b[off..off + 2])
  }

  /** Go's binary.BigEndian.Uint64(b[off:]). */
  function ReadU64(b: seq<Byte>, off: nat): (v: U64)
    requires off + 8 <= |b|
    ensures U64BE(v) == b[off..off + 8]
  {
    assert Pow256(8) == 0x1_0000_0000_0000_0000;
    BEOfFromBE(b[off..off + 8]);
    FromBE(b[off..off + 8])
  }

  /** Reading back what was written gives the value written. */
  lemma ReadU16OfU16BE(v: U16, pre: seq<Byte>, post: seq<Byte>)
    ensures ReadU16(pre + U16BE(v) + post, |pre|) == v
  {
    assert (pre + U16BE(v) + post)[|pre|..|pre| + 2] == U16BE(v);
  }

  lemma ReadU64OfU64BE(v: U64, pre: seq<Byte>, post: seq<Byte>)
    ensures ReadU64(pre + U64BE(v) + post, |pre|) == v
  {
    assert (pre + U64BE(v) + post)[|pre|..|pre| + 8] == U64BE(v);
  }

  /** Two bytes read big-endian. */
  lemma ReadU16Value(b: seq<Byte>, off: nat)
    requires off + 2 <= |b|
    ensures ReadU16(b, off) == b[off] as int * 256 + b[off + 1] as int
  {
    var s := b[off..off + 2];
    assert s[..1] == [b[off]] && s[..1][..0] == [];
    assert FromBE(s[..1]) == b[off];
    assert FromBE(s) == FromBE(s[..1]) * 256 + b[off + 1];
  }

  /** Zero bytes read as zero. */
  lemma {:induction false} FromBEZeros(s: seq<Byte>)
    requires forall i :: 0 <= i < |s| ==> s[i] == 0
    ensures FromBE(s) == 0
  {
    if s != [] {
      FromBEZeros(s[..|s| - 1]);
    }
  }

  lemma ReadU64Zero(b: seq<Byte>, off: nat)
    requires off + 8 <= |b| && forall i :: off <= i < off + 8 ==> b[i] == 0
    ensures ReadU64(b, off) == 0
  {
    FromBEZeros(b[off..off + 8]);
  }

  lemma SliceOfPrefix<T>(a: seq<T>, tail: seq<T>, x: nat, y: nat)
    requires x <= y <= |a|
    ensures (a + tail)[x..y] == a[x..y]
  {
  }

  lemma Split3<T>(s: seq<T>, a: nat, b: nat)
    requires a <= b <= |s|
    ensures s == s[..a] + s[a..b] + s[b..]
  {
  }

  /** Go's PutUint16/PutUint64 into a buffer: writes BE(v, n) at pos in place. */
  method PutBE(buf: array<Byte>, pos: nat, v: nat, n: nat)
    requires pos + n <= buf.Length
    modifies buf
    ensures buf[..] == old(buf[..pos]) + BE(v, n) + old(buf[pos + n..])
  {
    var enc := BE(v, n);
    for k := 0 to n
      invariant buf[..] == old(buf[..pos]) + enc[..k] + old(buf[pos + k..])
    {
      buf[pos + k] := enc[k];
      assert enc[..k + 1] == enc[..k] + [enc[k]];
    }
  }
}
