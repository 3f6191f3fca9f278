/** The segment count in the message header. EncodeSegments writes
    currentIdx there, which counts the old segments as well as the records
    that follow, while DecodeSegments reads that many records after the
    header. With old segments present, the decoder looks for records that
    were never written. The intended header counts only the records in
    the message. */
module RecordCount {
  import opened Bytes
  import opened Segments
  import opened Record
  import opened Encoder
  import opened Numbering
  import opened Decoder
  import opened RoundTrip

  // ---------------------------------------------------------------------
  // As written

  /** Announcing nothing against one old segment: the header claims one
      record, none follows, and the decoder runs off the end. */
  lemma OldSegmentMakesDecodePanic(x: Segment, src: U64, dst: U64)
    requires NilFree(x)
    ensures EncodeSpec([], [x], src, dst).Encoded?
    ensures DecodeSpec(EncodeSpec([], [x], src, dst).bytes, [x]) == Panicked
  {
    assert EncodeAll(Start([x], src, dst), [], [x]) == Some(Start([x], src, dst));
    FinalCounts([], [x], src, dst, Start([x], src, dst));
    assert |EncodeSpec([], [x], src, dst).sentsegs| == 0;
    DecodeOfEncode([], [x], src, dst);
  }

  // ---------------------------------------------------------------------
  // Corrected: the header counts the records written

  /** EncodeSegments with uint16(currentIdx - len(oldsegs)) as the header's segment count. */
  function CountedSpec(newsegs: seq<Segment>, oldsegs: seq<Segment>, src: U64, dst: U64): EncodeResult
    requires forall s <- newsegs :: NilFree(s)
    requires forall s <- oldsegs :: NilFree(s)
  {
    match EncodeAll(Start(oldsegs, src, dst), newsegs, oldsegs)
    case None => EncodePanicked
    case Some(st) =>
      EncodeAllExtends(Start(oldsegs, src, dst), newsegs, oldsegs);
      Encoded(st.out[..2] + U16BE(Uint16(st.cur - |oldsegs|)) + st.out[4..], st.sent)
  }

  /** The corrected encoder fails exactly when the code does, sends the same
      segments, and writes the same bytes apart from the count, which is the
      number of records sent; without old segments the two coincide. */
  lemma CountedDiffersOnlyInCount(newsegs: seq<Segment>, oldsegs: seq<Segment>, src: U64, dst: U64)
    requires (forall s <- newsegs :: NilFree(s)) && (forall s <- oldsegs :: NilFree(s))
    ensures CountedSpec(newsegs, oldsegs, src, dst).Encoded? == EncodeSpec(newsegs, oldsegs, src, dst).Encoded?
    ensures var c := CountedSpec(newsegs, oldsegs, src, dst);
      var e := EncodeSpec(newsegs, oldsegs, src, dst);
      c.Encoded? ==>
        && c.sentsegs == e.sentsegs && |c.bytes| == |e.bytes| >= HdrLen
        && c.bytes[..2] == e.bytes[..2] && c.bytes[4..] == e.bytes[4..]
        && ReadU16(c.bytes, 2) == Uint16(|c.sentsegs|)
    ensures oldsegs == [] ==> CountedSpec(newsegs, oldsegs, src, dst) == EncodeSpec(newsegs, oldsegs, src, dst)
  {
    match EncodeAll(Start(oldsegs, src, dst), newsegs, oldsegs)
    case None =>
    case Some(f) =>
      FinalCounts(newsegs, oldsegs, src, dst, f);
      var c := f.out[..2] + U16BE(Uint16(|f.sent|)) + f.out[4..];
      var e := f.out[..2] + U16BE(Uint16(f.cur)) + f.out[4..];
      assert CountedSpec(newsegs, oldsegs, src, dst) == Encoded(c, f.sent);
      assert EncodeSpec(newsegs, oldsegs, src, dst) == Encoded(e, f.sent);
      PatchedHeader(f.out, |f.sent|, src, dst);
      assert c[..2] == f.out[..2] && c[4..] == f.out[4..];
      assert e[..2] == f.out[..2] && e[4..] == f.out[4..];
  }

  /** The state the corrected encoder ends in, and its output. */
  lemma CountedFrom(newsegs: seq<Segment>, oldsegs: seq<Segment>, src: U64, dst: U64) returns (f: EncState)
    requires (forall s <- newsegs :: NilFree(s)) && (forall s <- oldsegs :: NilFree(s))
    requires CountedSpec(newsegs, oldsegs, src, dst).Encoded?
    ensures EncodeAll(Start(oldsegs, src, dst), newsegs, oldsegs) == Some(f)
    ensures CountedSpec(newsegs, oldsegs, src, dst) == Encoded(f.out[..2] + U16BE(Uint16(|f.sent|)) + f.out[4..], f.sent)
  {
    f := EncodeAll(Start(oldsegs, src, dst), newsegs, oldsegs).value;
    FinalCounts(newsegs, oldsegs, src, dst, f);
  }

  /** Decoding what the corrected encoder produced, against the same old
      segments, gives back the sent segments, and one accepted segment per
      input: the input itself, or a wrapper around it when it is an old segment. */
  lemma CountedDecodeOfEncode(newsegs: seq<Segment>, oldsegs: seq<Segment>, src: U64, dst: U64)
    requires (forall s <- newsegs :: NilFree(s)) && (forall s <- newsegs :: Narrow(s))
    requires forall s <- oldsegs :: NilFree(s)
    requires CountedSpec(newsegs, oldsegs, src, dst).Encoded?
    requires |oldsegs| + |CountedSpec(newsegs, oldsegs, src, dst).sentsegs| < 0x1_0000
    ensures var e := CountedSpec(newsegs, oldsegs, src, dst);
      var d := DecodeSpec(e.bytes, oldsegs);
      && d.Decoded? && d.newsegs == e.sentsegs && d.src == src && d.dst == dst
      && |d.accsegs| == |newsegs|
      && forall k :: 0 <= k < |newsegs| ==> AcceptedAs(d.accsegs[k], newsegs[k], oldsegs)
  {
    var start := Start(oldsegs, src, dst);
    var f := CountedFrom(newsegs, oldsegs, src, dst);
    StartNumbered(oldsegs, src, dst);
    AllNumbered(start, newsegs, oldsegs);
    EncodeAllExtends(start, newsegs, oldsegs);
    FinalCounts(newsegs, oldsegs, src, dst, f);
    assert Tracks(start, f, oldsegs, [], [HdrLen], []);
    var acc, marks, offs, tables := AllLaid(start, newsegs, oldsegs, f, [], [HdrLen], [], f);
    var n := |f.sent|;
    LaidStart(f.out, n, f.sent, marks, offs);
    DecodeLaid(f.out, n, oldsegs, f.sent, n, marks, offs, tables, DecState(f.out[HdrLen..], Nils(n), [], []));
    PatchedHeader(f.out, n, src, dst);
    CountedFinalDecode(oldsegs, src, dst, f.out, f.sent, acc, marks, offs, f.out[..2] + U16BE(Uint16(n)) + f.out[4..]);
  }

  /** From the decoded records of out, with a header counting exactly
      those records, to DecodeSpec on the patched bytes b. */
  lemma CountedFinalDecode(oldsegs: seq<Segment>, src: U64, dst: U64, out: seq<Byte>, sent: seq<Segment>,
                           acc: seq<Segment>, marks: seq<bool>, offs: seq<int>, b: seq<Byte>)
    requires |sent| < 0x1_0000 && HdrLen <= |out|
    requires |marks| == |sent| && |offs| == |sent| + 1 && offs[|sent|] == |out|
    requires Select(sent, marks) == acc
    requires DecodeSteps(DecState(out[HdrLen..], Nils(|sent|), [], []), oldsegs, |sent|)
          == Ok(LaidState(out, |sent|, sent, marks, offs, |sent|))
    requires |b| == |out| && b[HdrLen..] == out[HdrLen..] && b[1] == HdrLen
    requires ReadU16(b, 2) == Uint16(|sent|) && ReadU64(b, 4) == src && ReadU64(b, 12) == dst
    ensures DecodeSpec(b, oldsegs) == Decoded(sent, acc, src, dst)
  {
    LastState(out, |sent|, sent, marks, offs);
    Uint16Small(|sent|);
    assert sent + Nils(0) == sent;
    DecodeHeader(b, out, |sent|, |sent|, oldsegs, src, dst, Ok(LaidState(out, |sent|, sent, marks, offs, |sent|)));
  }
}
