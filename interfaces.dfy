/** The wire form of a hop list: 16 bytes per hop, ID then IA, each a
    big-endian uint64 (EncodeInterfaces and DecodeInterfaces). */
module Interfaces {
  import opened Bytes
  import opened Segments

  /** The 16 bytes of one hop. */
  function IfaceBytes(f: Iface): (b: seq<Byte>)
    ensures |b| == 16
  {
    U64BE(f.id) + U64BE(f.ia)
  }

  /** The bytes a hop list occupies on the wire. */
  function IfacesBytes(ifs: seq<Iface>): (b: seq<Byte>)
    ensures |b| == 16 * |ifs|
  {
    if ifs == [] then [] else IfacesBytes(ifs[..|ifs| - 1]) + IfaceBytes(ifs[|ifs| - 1])
  }

  /** The hop stored in the 16-byte slot i of b. */
  function IfaceAt(b: seq<Byte>, i: nat): Iface
    requires 16 * i + 16 <= |b|
  {
    Iface(ReadU64(b, 16 * i), ReadU64(b, 16 * i + 8))
  }

  /** The first n hops stored in b. */
  function IfacesOf(b: seq<Byte>, n: nat): (ifs: seq<Iface>)
    requires 16 * n <= |b|
    ensures |ifs| == n
  {
    if n == 0 then [] else IfacesOf(b, n - 1) + [IfaceAt(b, n - 1)]
  }

  /** Slot i of an IfacesBytes image holds hop i. */
  lemma {:induction false} IfacesBytesAt(ifs: seq<Iface>, i: nat)
    requires i < |ifs|
    ensures IfacesBytes(ifs)[16 * i..16 * i + 16] == IfaceBytes(ifs[i])
  {
    var n := |ifs|;
    var p := ifs[..n - 1];
    assert IfacesBytes(ifs) == IfacesBytes(p) + IfaceBytes(ifs[n - 1]);
    if i < n - 1 {
      IfacesBytesAt(p, i);
      assert IfacesBytes(ifs)[16 * i..16 * i + 16] == IfacesBytes(p)[16 * i..16 * i + 16];
    }
  }

  lemma {:induction false} IfacesOfAt(b: seq<Byte>, n: nat, i: nat)
    requires 16 * n <= |b| && i < n
    ensures IfacesOf(b, n)[i] == IfaceAt(b, i)
  {
    if i < n - 1 {
      IfacesOfAt(b, n - 1, i);
    }
  }

  /** Decoding the encoding of a hop list, followed by anything, gives the list back. */
  lemma IfacesRoundTrip(ifs: seq<Iface>, tail: seq<Byte>)
    ensures IfacesOf(IfacesBytes(ifs) + tail, |ifs|) == ifs
  {
    var b := IfacesBytes(ifs) + tail;
    var r := IfacesOf(b, |ifs|);
    forall i | 0 <= i < |ifs| ensures r[i] == ifs[i] {
      IfacesOfAt(b, |ifs|, i);
      IfacesBytesAt(ifs, i);
      SliceOfPrefix(IfacesBytes(ifs), tail, 16 * i, 16 * i + 16);
      IfaceOfBytes(b, i, ifs[i]);
    }
  }

  /** A slot holding the bytes of a hop reads back as that hop. */
  lemma IfaceOfBytes(b: seq<Byte>, i: nat, f: Iface)
    requires 16 * i + 16 <= |b| && b[16 * i..16 * i + 16] == IfaceBytes(f)
    ensures IfaceAt(b, i) == f
  {
    var k := 16 * i;
    var slot := b[k..k + 16];
    assert b[k..k + 8] == slot[..8] == U64BE(f.id);
    assert b[k + 8..k + 16] == slot[8..] == U64BE(f.ia);
  }

  /** Encoding the hops read from b gives back the bytes they were read from. */
  lemma IfacesBytesOfIfacesOf(b: seq<Byte>, n: nat)
    requires 16 * n <= |b|
    ensures IfacesBytes(IfacesOf(b, n)) == b[..16 * n]
  {
    var i := 0;
    while i < n
      invariant i <= n && IfacesBytes(IfacesOf(b, i)) == b[..16 * i]
    {
      IfacesBytesOfIfacesOfStep(b, i);
      i := i + 1;
    }
  }

  lemma IfacesBytesOfIfacesOfStep(b: seq<Byte>, i: nat)
    requires 16 * i + 16 <= |b| && IfacesBytes(IfacesOf(b, i)) == b[..16 * i]
    ensures IfacesBytes(IfacesOf(b, i + 1)) == b[..16 * i + 16]
  {
    IfacesBytesSnoc(IfacesOf(b, i), IfaceAt(b, i));
    IfaceAtBytes(b, i);
    SliceJoin(b, 16 * i, 16 * i + 16);
  }

  /** The hop read from slot i encodes back to the 16 bytes of that slot. */
  lemma IfaceAtBytes(b: seq<Byte>, i: nat)
    requires 16 * i + 16 <= |b|
    ensures IfaceBytes(IfaceAt(b, i)) == b[16 * i..16 * i + 16]
  {
    var k := 16 * i;
    assert b[k..k + 16] == b[k..k + 8] + b[k + 8..k + 16];
  }

  lemma IfacesBytesSnoc(ifs: seq<Iface>, f: Iface)
    ensures IfacesBytes(ifs + [f]) == IfacesBytes(ifs) + IfaceBytes(f)
  {
    assert (ifs + [f])[..|ifs|] == ifs;
  }

  lemma SliceJoin(b: seq<Byte>, k: nat, m: nat)
    requires k <= m <= |b|
    ensures b[..m] == b[..k] + b[k..m]
  {
  }

  /** Writes the hops into buf at off, in place (Go's EncodeInterfaces(bytes[off:], ifs)). */
  method EncodeInterfaces(buf: array<Byte>, off: nat, ifs: seq<Iface>)
    requires off + 16 * |ifs| <= buf.Length
    modifies buf
    ensures buf[..] == old(buf[..off]) + IfacesBytes(ifs) + old(buf[off + 16 * |ifs|..])
  {
    ghost var init := buf[..];
    for i := 0 to |ifs|
      invariant |buf[..]| == |init|
      invariant Filled(buf[..], init, off, ifs, i)
    {
      ghost var before := buf[..];
      PutIface(buf, off + 16 * i, ifs[i]);
      FilledStep(init, before, buf[..], off, ifs, i);
    }
    assert ifs[..|ifs|] == ifs;
    FilledAll(buf[..], init, off, ifs);
  }

  /** One loop iteration of EncodeInterfaces: the ID and the IA of one hop. */
  method PutIface(buf: array<Byte>, pos: nat, f: Iface)
    requires pos + 16 <= buf.Length
    modifies buf
    ensures buf[..] == old(buf[..pos]) + IfaceBytes(f) + old(buf[pos + 16..])
  {
    PutBE(buf, pos, f.id, 8);
    ghost var middle := buf[..];
    PutBE(buf, pos + 8, f.ia, 8);
    assert middle[..pos + 8] == old(buf[..pos]) + U64BE(f.id);
    assert middle[pos + 16..] == old(buf[pos + 16..]);
  }

  /** buf agrees with init except that slots 0..i from off hold the first i hops. */
  ghost predicate Filled(buf: seq<Byte>, init: seq<Byte>, off: nat, ifs: seq<Iface>, i: nat)
    requires i <= |ifs| && off + 16 * |ifs| <= |buf| == |init|
  {
    && buf[..off] == init[..off]
    && buf[off..off + 16 * i] == IfacesBytes(ifs[..i])
    && buf[off + 16 * i..] == init[off + 16 * i..]
  }

  lemma FilledStep(init: seq<Byte>, before: seq<Byte>, after: seq<Byte>,
                   off: nat, ifs: seq<Iface>, i: nat)
    requires i < |ifs| && off + 16 * |ifs| <= |before| == |init|
    requires Filled(before, init, off, ifs, i)
    requires after == before[..off + 16 * i] + IfaceBytes(ifs[i]) + before[off + 16 * i + 16..]
    ensures |after| == |init| && Filled(after, init, off, ifs, i + 1)
  {
    var pos := off + 16 * i;
    assert after[..off] == before[..off];
    assert after[off..pos + 16] == before[off..pos] + IfaceBytes(ifs[i]);
    assert ifs[..i + 1][..i] == ifs[..i];
    assert after[pos + 16..] == before[pos + 16..];
    assert before[pos + 16..] == before[pos..][16..];
    assert init[pos + 16..] == init[pos..][16..];
  }

  lemma FilledAll(buf: seq<Byte>, init: seq<Byte>, off: nat, ifs: seq<Iface>)
    requires off + 16 * |ifs| <= |buf| == |init|
    requires Filled(buf, init, off, ifs, |ifs|)
    requires ifs[..|ifs|] == ifs
    ensures buf == init[..off] + IfacesBytes(ifs) + init[off + 16 * |ifs|..]
  {
    Split3(buf, off, off + 16 * |ifs|);
  }

  /** Reads seglen hops from the front of bytes into a fresh list. */
  method DecodeInterfaces(bytes: seq<Byte>, seglen: nat) returns (ifs: seq<Iface>)
    requires 16 * seglen <= |bytes|
    ensures ifs == IfacesOf(bytes, seglen)
    ensures forall i :: 0 <= i < seglen ==> ifs[i] == Iface(ReadU64(bytes, 16 * i), ReadU64(bytes, 16 * i + 8))
  {
    var interfaces := new Iface[seglen](_ => Iface(0, 0));
    for i := 0 to seglen
      invariant interfaces[..i] == IfacesOf(bytes, i)
    {
      var id := ReadU64(bytes, 16 * i);
      var ia := ReadU64(bytes, 16 * i + 8);
      interfaces[i] := Iface(id, ia);
      assert interfaces[..i + 1] == interfaces[..i] + [IfaceAt(bytes, i)];
    }
    ifs := interfaces[..];
    assert ifs == interfaces[..seglen];
    IfacesOfAll(bytes, seglen);
  }

  /** Every hop IfacesOf lists is the one stored in its slot. */
  lemma IfacesOfAll(b: seq<Byte>, n: nat)
    requires 16 * n <= |b|
    ensures forall i :: 0 <= i < n ==> IfacesOf(b, n)[i] == Iface(ReadU64(b, 16 * i), ReadU64(b, 16 * i + 8))
  {
    forall i | 0 <= i < n ensures IfacesOf(b, n)[i] == IfaceAt(b, i) {
      IfacesOfAt(b, n, i);
    }
  }
}
