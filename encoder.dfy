/** EncodeSegments: deduplicating serialization of top-level segments
    against the receiver's known segments. */
module Encoder {
  import opened Bytes
  import opened Segments
  import opened Record

  const HdrLen: nat := 20

  /** The encoder's loop state: the index table (keyed by segment, standing
      for its fingerprint), the next index, the bytes so far and the sent segments. */
  datatype EncState = EncState(segidx: map<Segment, int>, cur: int, out: seq<Byte>, sent: seq<Segment>)

  /** Go panics (index out of range) or returns the bytes and the sent segments. */
  datatype EncodeResult = EncodePanicked | Encoded(bytes: seq<Byte>, sentsegs: seq<Segment>)

  /** The header as first written: hdrlen at byte 1, src and dst IA, numsegs still 0. */
  function InitialHeader(src: U64, dst: U64): (h: seq<Byte>)
    ensures |h| == HdrLen
  {
    [0, HdrLen, 0, 0] + U64BE(src) + U64BE(dst)
  }

  /** The table seeded from the old segments: each maps to its position,
      a later duplicate overwriting an earlier one. */
  function SeedIndex(oldsegs: seq<Segment>): map<Segment, int> {
    if oldsegs == [] then map[] else SeedIndex(oldsegs[..|oldsegs| - 1])[oldsegs[|oldsegs| - 1] := |oldsegs| - 1]
  }

  function Start(oldsegs: seq<Segment>, src: U64, dst: U64): EncState {
    EncState(SeedIndex(oldsegs), |oldsegs|, InitialHeader(src, dst), [])
  }

  /** The wrapper record that re-announces an already indexed segment. */
  function Wrapper(s: Segment): Segment {
    Composition([s])
  }

  /** Gives seg the next index, then appends its record and seg itself. */
  function Announce(st: EncState, seg: Segment, accepted: bool): EncState
    requires NilFree(seg)
  {
    var segidx := st.segidx[seg := st.cur];
    EncState(segidx, st.cur + 1, st.out + RecordBytes(seg, accepted, segidx), st.sent + [seg])
  }

  /** Consumes the next index for an accepted one-child wrapper around s,
      without touching the table. */
  function Reannounce(st: EncState, s: Segment): EncState
    requires NilFree(s)
  {
    EncState(st.segidx, st.cur + 1, st.out + RecordBytes(Wrapper(s), true, st.segidx), st.sent + [Wrapper(s)])
  }

  /** One iteration of the subsegment loop. */
  function EncodeSub(st: EncState, sub: Segment): EncState
    requires NilFree(sub)
  {
    if sub in st.segidx then st else Announce(st, sub, false)
  }

  /** The subsegment loop over subs. */
  function EncodeSubs(st: EncState, subs: seq<Segment>): EncState
    requires forall s <- subs :: NilFree(s)
  {
    if subs == [] then st else EncodeSub(EncodeSubs(st, subs[..|subs| - 1]), subs[|subs| - 1])
  }

  /** One iteration of the top-level loop: the subsegments, then the
      accepted record; None where Go indexes oldsegs out of range. */
  function EncodeTop(st: EncState, newseg: Segment, oldsegs: seq<Segment>): Option<EncState>
    requires NilFree(newseg) && forall s <- oldsegs :: NilFree(s)
  {
    RecursiveSubsegmentsPostOrder(newseg);
    var mid := EncodeSubs(st, RecursiveSubsegments(newseg));
    if newseg !in mid.segidx then Some(Announce(mid, newseg, true))
    else
      var idx := mid.segidx[newseg];
      if 0 <= idx < |oldsegs| then Some(Reannounce(mid, oldsegs[idx])) else None
  }

  /** The top-level loop over newsegs. */
  function EncodeAll(st: EncState, newsegs: seq<Segment>, oldsegs: seq<Segment>): Option<EncState>
    requires forall s <- newsegs :: NilFree(s)
    requires forall s <- oldsegs :: NilFree(s)
  {
    if newsegs == [] then Some(st)
    else
      match EncodeAll(st, newsegs[..|newsegs| - 1], oldsegs)
      case None => None
      case Some(s) => EncodeTop(s, newsegs[|newsegs| - 1], oldsegs)
  }

  /** What EncodeSegments computes: the final bytes with numsegs patched in. */
  function EncodeSpec(newsegs: seq<Segment>, oldsegs: seq<Segment>, src: U64, dst: U64): EncodeResult
    requires forall s <- newsegs :: NilFree(s)
    requires forall s <- oldsegs :: NilFree(s)
  {
    match EncodeAll(Start(oldsegs, src, dst), newsegs, oldsegs)
    case None => EncodePanicked
    case Some(st) =>
      EncodeAllExtends(Start(oldsegs, src, dst), newsegs, oldsegs);
      Encoded(st.out[..2] + U16BE(Uint16(st.cur)) + st.out[4..], st.sent)
  }

  /** The loops only append: the bytes and the sent list of a later state extend an earlier one's. */
  lemma EncodeSubExtends(st: EncState, sub: Segment)
    requires NilFree(sub)
    ensures st.out <= EncodeSub(st, sub).out && st.sent <= EncodeSub(st, sub).sent
  {
  }

  lemma {:induction false} EncodeSubsExtends(st: EncState, subs: seq<Segment>)
    requires forall s <- subs :: NilFree(s)
    ensures st.out <= EncodeSubs(st, subs).out && st.sent <= EncodeSubs(st, subs).sent
  {
    if subs != [] {
      EncodeSubsExtends(st, subs[..|subs| - 1]);
      EncodeSubExtends(EncodeSubs(st, subs[..|subs| - 1]), subs[|subs| - 1]);
    }
  }

  lemma EncodeTopExtends(st: EncState, newseg: Segment, oldsegs: seq<Segment>)
    requires NilFree(newseg) && forall s <- oldsegs :: NilFree(s)
    ensures EncodeTop(st, newseg, oldsegs).Some? ==>
      st.out <= EncodeTop(st, newseg, oldsegs).value.out && st.sent <= EncodeTop(st, newseg, oldsegs).value.sent
  {
    RecursiveSubsegmentsPostOrder(newseg);
    EncodeSubsExtends(st, RecursiveSubsegments(newseg));
  }

  lemma {:induction false} EncodeAllExtends(st: EncState, newsegs: seq<Segment>, oldsegs: seq<Segment>)
    requires forall s <- newsegs :: NilFree(s)
    requires forall s <- oldsegs :: NilFree(s)
    ensures EncodeAll(st, newsegs, oldsegs).Some? ==>
      st.out <= EncodeAll(st, newsegs, oldsegs).value.out && st.sent <= EncodeAll(st, newsegs, oldsegs).value.sent
  {
    if newsegs != [] {
      var p := newsegs[..|newsegs| - 1];
      EncodeAllExtends(st, p, oldsegs);
      match EncodeAll(st, p, oldsegs)
      case None =>
      case Some(s) => EncodeTopExtends(s, newsegs[|newsegs| - 1], oldsegs);
    }
  }

  datatype Option<T> = None | Some(value: T)

  // ---------------------------------------------------------------------
  // The method

  /** Go's EncodeSegments. */
  method EncodeSegments(newsegs: seq<Segment>, oldsegs: seq<Segment>, srcIA: U64, dstIA: U64)
    returns (r: EncodeResult)
    requires forall s <- newsegs :: NilFree(s)
    requires forall s <- oldsegs :: NilFree(s)
    ensures r == EncodeSpec(newsegs, oldsegs, srcIA, dstIA)
  {
    var hdrlen := HdrLen;
    var allbytes: seq<Byte> := seq(hdrlen, _ => 0);
    allbytes := allbytes[1 := Uint8(hdrlen)];
    allbytes := allbytes[..4] + U64BE(srcIA) + allbytes[12..];
    allbytes := allbytes[..12] + U64BE(dstIA) + allbytes[20..];
    assert allbytes == InitialHeader(srcIA, dstIA);

    var segidx := SeedTable(oldsegs);
    var currentIdx := |oldsegs|;
    var sentsegs: seq<Segment> := [];

    ghost var start := Start(oldsegs, srcIA, dstIA);
    for k := 0 to |newsegs|
      invariant EncodeAll(start, newsegs[..k], oldsegs) == Some(EncState(segidx, currentIdx, allbytes, sentsegs))
    {
      var newseg := newsegs[k];
      assert newsegs[..k + 1][..k] == newsegs[..k];
      var ok;
      segidx, currentIdx, allbytes, sentsegs, ok := EncodeTopLevel(newseg, oldsegs, segidx, currentIdx, allbytes, sentsegs);
      if !ok {
        EncodeAllStaysPanicked(start, newsegs, oldsegs, k + 1);
        return EncodePanicked;
      }
    }
    assert newsegs[..|newsegs|] == newsegs;

    EncodeAllExtends(start, newsegs, oldsegs);
    var numsegs := Uint16(currentIdx);
    allbytes := allbytes[..2] + U16BE(numsegs) + allbytes[4..];
    r := Encoded(allbytes, sentsegs);
  }

  /** The loop of EncodeSegments that seeds the index table from oldsegs. */
  method SeedTable(oldsegs: seq<Segment>) returns (segidx: map<Segment, int>)
    ensures segidx == SeedIndex(oldsegs)
  {
    segidx := map[];
    for idx := 0 to |oldsegs|
      invariant segidx == SeedIndex(oldsegs[..idx])
    {
      assert oldsegs[..idx + 1][..idx] == oldsegs[..idx];
      segidx := segidx[oldsegs[idx] := idx];
    }
    assert oldsegs[..|oldsegs|] == oldsegs;
  }

  /** The body of EncodeSegments' top-level loop for one input segment;
      ok is false where Go panics indexing oldsegs. */
  method EncodeTopLevel(newseg: Segment, oldsegs: seq<Segment>, segidx0: map<Segment, int>, currentIdx0: int,
                        allbytes0: seq<Byte>, sentsegs0: seq<Segment>)
    returns (segidx: map<Segment, int>, currentIdx: int, allbytes: seq<Byte>, sentsegs: seq<Segment>, ok: bool)
    requires NilFree(newseg) && forall s <- oldsegs :: NilFree(s)
    ensures var r := EncodeTop(EncState(segidx0, currentIdx0, allbytes0, sentsegs0), newseg, oldsegs);
      ok == r.Some? && (ok ==> r.value == EncState(segidx, currentIdx, allbytes, sentsegs))
  {
    // encode (unaccepted) subsegments
    var subsegs := RecursiveSubsegments(newseg);
    RecursiveSubsegmentsPostOrder(newseg);
    segidx, currentIdx, allbytes, sentsegs := EncodeSubsegments(subsegs, segidx0, currentIdx0, allbytes0, sentsegs0);
    // encode (accepted) segment
    ok := true;
    if newseg !in segidx {
      segidx, currentIdx, allbytes, sentsegs := AnnounceSegment(newseg, true, segidx, currentIdx, allbytes, sentsegs);
    } else {
      var idx := segidx[newseg];
      if !(0 <= idx < |oldsegs|) {
        ok := false;
        return;
      }
      currentIdx, allbytes, sentsegs := ReannounceSegment(oldsegs[idx], segidx, currentIdx, allbytes, sentsegs);
    }
  }

  /** Gives a segment with no index the next one, then appends its record
      and the segment itself. */
  method AnnounceSegment(seg: Segment, accepted: bool, segidx0: map<Segment, int>, currentIdx0: int,
                         allbytes0: seq<Byte>, sentsegs0: seq<Segment>)
    returns (segidx: map<Segment, int>, currentIdx: int, allbytes: seq<Byte>, sentsegs: seq<Segment>)
    requires NilFree(seg)
    ensures EncState(segidx, currentIdx, allbytes, sentsegs)
         == Announce(EncState(segidx0, currentIdx0, allbytes0, sentsegs0), seg, accepted)
  {
    segidx := segidx0[seg := currentIdx0];
    currentIdx := currentIdx0 + 1;
    var rec := EncodeSegment(seg, accepted, segidx);
    allbytes := allbytes0 + rec;
    sentsegs := sentsegs0 + [seg];
  }

  /** Consumes the next index for an accepted wrapper around s and appends
      the wrapper's record and the wrapper itself; the table is untouched. */
  method ReannounceSegment(s: Segment, segidx: map<Segment, int>, currentIdx0: int,
                           allbytes0: seq<Byte>, sentsegs0: seq<Segment>)
    returns (currentIdx: int, allbytes: seq<Byte>, sentsegs: seq<Segment>)
    requires NilFree(s)
    ensures EncState(segidx, currentIdx, allbytes, sentsegs)
         == Reannounce(EncState(segidx, currentIdx0, allbytes0, sentsegs0), s)
  {
    currentIdx := currentIdx0 + 1;
    var accepted := true;
    var rec := EncodeSegment(Wrapper(s), accepted, segidx);
    allbytes := allbytes0 + rec;
    sentsegs := sentsegs0 + [Wrapper(s)];
  }

  /** EncodeSegments' loop over the subsegments of one input segment. */
  method EncodeSubsegments(subsegs: seq<Segment>, segidx0: map<Segment, int>, currentIdx0: int,
                           allbytes0: seq<Byte>, sentsegs0: seq<Segment>)
    returns (segidx: map<Segment, int>, currentIdx: int, allbytes: seq<Byte>, sentsegs: seq<Segment>)
    requires forall s <- subsegs :: NilFree(s)
    ensures EncodeSubs(EncState(segidx0, currentIdx0, allbytes0, sentsegs0), subsegs)
         == EncState(segidx, currentIdx, allbytes, sentsegs)
  {
    segidx, currentIdx, allbytes, sentsegs := segidx0, currentIdx0, allbytes0, sentsegs0;
    for j := 0 to |subsegs|
      invariant EncodeSubs(EncState(segidx0, currentIdx0, allbytes0, sentsegs0), subsegs[..j])
             == EncState(segidx, currentIdx, allbytes, sentsegs)
    {
      var subseg := subsegs[j];
      assert subsegs[..j + 1][..j] == subsegs[..j];
      if subseg !in segidx {
        segidx, currentIdx, allbytes, sentsegs := AnnounceSegment(subseg, false, segidx, currentIdx, allbytes, sentsegs);
      }
    }
    assert subsegs[..|subsegs|] == subsegs;
  }

  /** Once a prefix of the inputs panics, the whole call does. */
  lemma {:induction false} EncodeAllStaysPanicked(st: EncState, newsegs: seq<Segment>, oldsegs: seq<Segment>, k: nat)
    requires forall s <- newsegs :: NilFree(s)
    requires forall s <- oldsegs :: NilFree(s)
    requires 0 < k <= |newsegs|
    requires EncodeAll(st, newsegs[..k], oldsegs) == None
    ensures EncodeAll(st, newsegs, oldsegs) == None
    decreases |newsegs| - k
  {
    if k < |newsegs| {
      assert newsegs[..k + 1][..k] == newsegs[..k];
      EncodeAllStaysPanicked(st, newsegs, oldsegs, k + 1);
    } else {
      assert newsegs[..k] == newsegs;
    }
  }
}
