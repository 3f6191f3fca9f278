/** One segment record on the wire (EncodeSegment) and the flag bits of its first byte. */
module Record {
  import opened Bytes
  import opened Segments
  import opened Interfaces

  const SegTypeLiteral: Byte := 0
  const SegTypeComposition: Byte := 1
  const SegTypeMask: Byte := 1
  const SegAcceptedFalse: Byte := 0
  const SegAcceptedTrue: Byte := 2
  const SegAcceptedMask: Byte := 2

  /** Go's a & b on bytes. */
  function And(a: Byte, b: Byte): Byte {
    ((a as bv8) & (b as bv8)) as int
  }

  /** Go's a | b on bytes. */
  function Or(a: Byte, b: Byte): Byte {
    ((a as bv8) | (b as bv8)) as int
  }

  /** Go's uint8(x) and uint16(x) conversions of an int: keep the low bits. */
  function Uint8(x: int): Byte { x % 0x100 }
  function Uint16(x: int): U16 { x % 0x1_0000 }

  /** Go's segidx[s]: the stored index, or the zero value 0 for a missing key. */
  function IndexOf(segidx: map<Segment, int>, s: Segment): int {
    if s in segidx then segidx[s] else 0
  }

  /** The type bit EncodeSegment sets for a (non-nil) segment. */
  function TypeFlag(seg: Segment): Byte {
    if seg.Literal? then SegTypeLiteral else SegTypeComposition
  }

  function AcceptedFlag(accepted: bool): Byte {
    if accepted then SegAcceptedTrue else SegAcceptedFalse
  }

  /** The number of entries in a record: hops of a literal, children of a composition. */
  function Entries(seg: Segment): nat {
    match seg
    case Nil => 0
    case Literal(ifaces) => |ifaces|
    case Composition(segs) => |segs|
  }

  /** The flag bits can be read back separately from the flags byte. */
  lemma FlagsSeparate(accepted: bool, typ: Byte)
    requires typ == SegTypeLiteral || typ == SegTypeComposition
    ensures And(Or(AcceptedFlag(accepted), typ), SegTypeMask) == typ
    ensures And(Or(AcceptedFlag(accepted), typ), SegAcceptedMask) == AcceptedFlag(accepted)
  {
  }

  /** The 2-byte references to segs, each the uint16 of its index in segidx. */
  function RefsBytes(segs: seq<Segment>, segidx: map<Segment, int>): (b: seq<Byte>)
    ensures |b| == 2 * |segs|
  {
    if segs == [] then []
    else RefsBytes(segs[..|segs| - 1], segidx) + U16BE(Uint16(IndexOf(segidx, segs[|segs| - 1])))
  }

  /** The payload of a record. */
  function Payload(seg: Segment, segidx: map<Segment, int>): seq<Byte> {
    match seg
    case Nil => []
    case Literal(ifaces) => IfacesBytes(ifaces)
    case Composition(segs) => RefsBytes(segs, segidx)
  }

  /** The record EncodeSegment produces: four header bytes (flags, seglen,
      optlen 0) and the payload, with no options. */
  function RecordBytes(seg: Segment, accepted: bool, segidx: map<Segment, int>): (r: seq<Byte>)
    requires seg != Nil
    ensures |r| == 4 + |Payload(seg, segidx)|
  {
    [Or(AcceptedFlag(accepted), TypeFlag(seg)), Uint8(Entries(seg))] + U16BE(0) + Payload(seg, segidx)
  }

  lemma {:induction false} RefsBytesAt(segs: seq<Segment>, segidx: map<Segment, int>, i: nat)
    requires i < |segs|
    ensures RefsBytes(segs, segidx)[2 * i..2 * i + 2] == U16BE(Uint16(IndexOf(segidx, segs[i])))
  {
    var n := |segs|;
    var p := segs[..n - 1];
    if i < n - 1 {
      RefsBytesAt(p, segidx, i);
      assert RefsBytes(segs, segidx)[2 * i..2 * i + 2] == RefsBytes(p, segidx)[2 * i..2 * i + 2];
    }
  }

  /** The four header bytes of a record: flag bits, entry count, zero optlen. */
  lemma RecordHeader(seg: Segment, accepted: bool, segidx: map<Segment, int>)
    requires seg != Nil
    ensures var r := RecordBytes(seg, accepted, segidx);
      && |r| >= 4
      && And(r[0], SegTypeMask) == (if seg.Literal? then SegTypeLiteral else SegTypeComposition)
      && And(r[0], SegAcceptedMask) == (if accepted then SegAcceptedTrue else SegAcceptedFalse)
      && r[1] == Entries(seg) % 0x100
      && r[2] == 0 && r[3] == 0
      && r[4..] == Payload(seg, segidx)
  {
    FlagsSeparate(accepted, TypeFlag(seg));
    assert U16BE(0) == [0, 0];
  }

  /** A literal's record is 16 bytes per hop after the header and reads back as its hops. */
  lemma LiteralLayout(ifaces: seq<Iface>, accepted: bool, segidx: map<Segment, int>)
    ensures var r := RecordBytes(Literal(ifaces), accepted, segidx);
      |r| == 4 + 16 * |ifaces| && IfacesOf(r[4..], |ifaces|) == ifaces
  {
    RecordHeader(Literal(ifaces), accepted, segidx);
    IfacesRoundTrip(ifaces, []);
    assert IfacesBytes(ifaces) + [] == IfacesBytes(ifaces);
  }

  /** A composition's record is 2 bytes per child after the header; slot i
      holds the uint16 of child i's index in segidx (0 when it has none). */
  lemma CompositionLayout(segs: seq<Segment>, accepted: bool, segidx: map<Segment, int>)
    ensures var r := RecordBytes(Composition(segs), accepted, segidx);
      && |r| == 4 + 2 * |segs|
      && forall i :: 0 <= i < |segs| ==> ReadU16(r, 4 + 2 * i) == IndexOf(segidx, segs[i]) % 0x1_0000
  {
    var r := RecordBytes(Composition(segs), accepted, segidx);
    RecordHeader(Composition(segs), accepted, segidx);
    forall i | 0 <= i < |segs|
      ensures ReadU16(r, 4 + 2 * i) == IndexOf(segidx, segs[i]) % 0x1_0000
    {
      RefsBytesAt(segs, segidx, i);
      assert r[4 + 2 * i..4 + 2 * i + 2] == r[4..][2 * i..2 * i + 2];
    }
  }

  /** Serializes one segment as a record (Go's EncodeSegment). */
  method EncodeSegment(seg: Segment, accepted: bool, segidx: map<Segment, int>) returns (r: seq<Byte>)
    requires NilFree(seg)
    ensures r == RecordBytes(seg, accepted, segidx)
  {
    var flags: Byte;
    var seglen: nat;
    var optlen: nat := 0;
    if accepted {
      flags := SegAcceptedTrue;
    } else {
      flags := SegAcceptedFalse;
    }
    var bytes: array<Byte>;
    match seg {
      case Literal(ifaces) =>
        flags := Or(flags, SegTypeLiteral);
        seglen := |ifaces|;
        bytes := new Byte[4 + seglen * 16 + optlen];
        ghost var blank := bytes[..];
        EncodeInterfaces(bytes, 4, ifaces);
        TailOf(bytes[..], blank[..4], IfacesBytes(ifaces), blank[4 + 16 * |ifaces|..]);
      case Composition(segs) =>
        flags := Or(flags, SegTypeComposition);
        seglen := |segs|;
        bytes := new Byte[4 + seglen * 2 + optlen];
        EncodeRefs(bytes, segs, segidx);
    }
    ghost var before := bytes[..];
    bytes[0] := flags;
    assert bytes[..] == before[0 := flags];
    var n := Uint8(seglen);
    bytes[1] := n;
    ghost var flagged := bytes[..];
    assert flagged == before[0 := flags][1 := n];
    PutBE(bytes, 2, Uint16(optlen), 2);
    r := bytes[..];
    Assemble(before, flagged, r, flags, n, Payload(seg, segidx));
  }

  lemma TailOf(b: seq<Byte>, pre: seq<Byte>, payload: seq<Byte>, post: seq<Byte>)
    requires b == pre + payload + post && post == []
    ensures b[|pre|..] == payload
  {
  }

  lemma Assemble(before: seq<Byte>, flagged: seq<Byte>, r: seq<Byte>, flags: Byte, n: Byte, payload: seq<Byte>)
    requires |before| >= 4 && before[4..] == payload
    requires flagged == before[0 := flags][1 := n]
    requires r == flagged[..2] + BE(0, 2) + flagged[4..]
    ensures r == [flags, n] + U16BE(0) + payload
  {
    assert flagged[4..] == before[4..];
    assert flagged[..2] == [flags, n];
  }

  /** The loop of EncodeSegment over a composition's children: writes
      their references from offset 4 on. */
  method EncodeRefs(bytes: array<Byte>, segs: seq<Segment>, segidx: map<Segment, int>)
    requires bytes.Length == 4 + 2 * |segs|
    modifies bytes
    ensures bytes[..4] == old(bytes[..4])
    ensures bytes[4..] == RefsBytes(segs, segidx)
  {
    for i := 0 to |segs|
      invariant bytes[..4] == old(bytes[..4])
      invariant bytes[4..4 + 2 * i] == RefsBytes(segs[..i], segidx)
    {
      ghost var before := bytes[..];
      var v := Uint16(IndexOf(segidx, segs[i]));
      PutBE(bytes, 4 + i * 2, v, 2);
      RefsStep(before, bytes[..], segs, segidx, i);
    }
    assert segs[..|segs|] == segs;
  }

  lemma RefsStep(before: seq<Byte>, after: seq<Byte>, segs: seq<Segment>, segidx: map<Segment, int>, i: nat)
    requires i < |segs| && |before| == 4 + 2 * |segs|
    requires before[4..4 + 2 * i] == RefsBytes(segs[..i], segidx)
    requires after == before[..4 + 2 * i] + BE(Uint16(IndexOf(segidx, segs[i])), 2) + before[4 + 2 * i + 2..]
    ensures after[4..4 + 2 * (i + 1)] == RefsBytes(segs[..i + 1], segidx)
  {
    assert segs[..i + 1][..i] == segs[..i];
    assert after[4..4 + 2 * (i + 1)] == before[4..4 + 2 * i] + BE(Uint16(IndexOf(segidx, segs[i])), 2);
  }
}
