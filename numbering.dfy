/** The index-numbering invariant of EncodeSegments, subsegment dedup, the
    one accepted record per top-level input, and the header layout. */
module Numbering {
  import opened Bytes
  import opened Segments
  import opened Record
  import opened Encoder

  /** Encoder and decoder agree on this numbering: currentIdx counts the old
      and the sent segments, every key names the slot of oldsegs ++ sentsegs
      that holds it, and every old segment keeps an index below len(oldsegs). */
  ghost predicate Numbered(st: EncState, oldsegs: seq<Segment>) {
    && st.cur == |oldsegs| + |st.sent|
    && (forall s :: s in st.segidx ==> 0 <= st.segidx[s] < st.cur && (oldsegs + st.sent)[st.segidx[s]] == s)
    && (forall i :: 0 <= i < |oldsegs| ==> oldsegs[i] in st.segidx && st.segidx[oldsegs[i]] < |oldsegs|)
  }

  /** No entry of the table of st is lost or overwritten in t. */
  ghost predicate Keeps(st: EncState, t: EncState) {
    forall s :: s in st.segidx ==> s in t.segidx && t.segidx[s] == st.segidx[s]
  }

  /** The seeded table maps each old segment to the position of its last occurrence. */
  lemma {:induction false} SeedIndexNumbers(oldsegs: seq<Segment>)
    ensures forall s :: s in SeedIndex(oldsegs) ==>
      0 <= SeedIndex(oldsegs)[s] < |oldsegs| && oldsegs[SeedIndex(oldsegs)[s]] == s
    ensures forall i :: 0 <= i < |oldsegs| ==>
      oldsegs[i] in SeedIndex(oldsegs) && i <= SeedIndex(oldsegs)[oldsegs[i]]
  {
    if oldsegs != [] {
      var n := |oldsegs|;
      var p := oldsegs[..n - 1];
      SeedIndexNumbers(p);
      forall i | 0 <= i < n - 1 ensures oldsegs[i] == p[i] {
      }
    }
  }

  /** The state before the top-level loop is numbered: currentIdx = len(oldsegs), nothing sent. */
  lemma StartNumbered(oldsegs: seq<Segment>, src: U64, dst: U64)
    ensures Numbered(Start(oldsegs, src, dst), oldsegs)
    ensures Start(oldsegs, src, dst).cur == |oldsegs| && Start(oldsegs, src, dst).sent == []
  {
    SeedIndexNumbers(oldsegs);
    assert oldsegs + [] == oldsegs;
  }

  /** An old segment has an index below len(oldsegs). */
  lemma OldIndexed(st: EncState, x: Segment, oldsegs: seq<Segment>)
    requires Numbered(st, oldsegs) && x in oldsegs
    ensures x in st.segidx && st.segidx[x] < |oldsegs|
  {
    var i :| 0 <= i < |oldsegs| && oldsegs[i] == x;
  }

  /** Announcing an unindexed segment (next index, then its record) keeps the numbering. */
  lemma FreshNumbered(st: EncState, seg: Segment, accepted: bool, oldsegs: seq<Segment>)
    requires NilFree(seg) && Numbered(st, oldsegs) && seg !in st.segidx
    ensures Numbered(Announce(st, seg, accepted), oldsegs) && Keeps(st, Announce(st, seg, accepted))
  {
    var t := Announce(st, seg, accepted);
    KeyedNumbered(st, t.segidx, seg, oldsegs);
  }

  /** The table and counters after announcing an unindexed seg are numbered. */
  lemma KeyedNumbered(st: EncState, segidx: map<Segment, int>, seg: Segment, oldsegs: seq<Segment>)
    requires Numbered(st, oldsegs) && seg !in st.segidx && segidx == st.segidx[seg := st.cur]
    ensures var t := EncState(segidx, st.cur + 1, [], st.sent + [seg]);
      Numbered(t, oldsegs) && Keeps(st, t)
  {
    var sent := st.sent + [seg];
    forall s | s in segidx ensures (oldsegs + sent)[segidx[s]] == s {
      if s != seg {
        assert (oldsegs + sent)[segidx[s]] == (oldsegs + st.sent)[st.segidx[s]];
      } else {
        assert (oldsegs + sent)[st.cur] == seg;
      }
    }
  }

  /** Re-announcing through a wrapper, which is sent but not indexed, keeps the numbering. */
  lemma WrapNumbered(st: EncState, s: Segment, oldsegs: seq<Segment>)
    requires NilFree(s) && Numbered(st, oldsegs)
    ensures Numbered(Reannounce(st, s), oldsegs) && Keeps(st, Reannounce(st, s))
  {
    var t := Reannounce(st, s);
    forall x | x in t.segidx ensures (oldsegs + t.sent)[t.segidx[x]] == x {
      assert (oldsegs + t.sent)[t.segidx[x]] == (oldsegs + st.sent)[st.segidx[x]];
    }
  }

  /** A key whose index lies below len(oldsegs) is the old segment in that slot. */
  lemma OldSlot(st: EncState, s: Segment, oldsegs: seq<Segment>)
    requires Numbered(st, oldsegs) && s in st.segidx
    ensures 0 <= st.segidx[s] < |oldsegs| ==> oldsegs[st.segidx[s]] == s && s in oldsegs
  {
    var idx := st.segidx[s];
    if 0 <= idx < |oldsegs| {
      assert (oldsegs + st.sent)[idx] == oldsegs[idx];
    }
  }

  lemma KeepsTrans(a: EncState, b: EncState, c: EncState)
    requires Keeps(a, b) && Keeps(b, c)
    ensures Keeps(a, c)
  {
  }

  /** Subsegment dedup: a key already present costs nothing; an absent one
      gets exactly currentIdx and one record with the accepted bit clear;
      existing entries are never overwritten. */
  lemma SubDedup(st: EncState, sub: Segment, oldsegs: seq<Segment>)
    requires NilFree(sub) && Numbered(st, oldsegs)
    ensures var t := EncodeSub(st, sub);
      && Numbered(t, oldsegs) && Keeps(st, t) && sub in t.segidx
      && (forall s :: s in t.segidx ==> s in st.segidx || s == sub)
      && (sub in st.segidx ==> t == st)
      && (sub !in st.segidx ==>
            && t.segidx[sub] == st.cur && t.cur == st.cur + 1 && t.sent == st.sent + [sub]
            && t.out == st.out + RecordBytes(sub, false, t.segidx)
            && And(t.out[|st.out|], SegAcceptedMask) == SegAcceptedFalse)
  {
    if sub !in st.segidx {
      var t := EncodeSub(st, sub);
      FreshNumbered(st, sub, false, oldsegs);
      RecordHeader(sub, false, t.segidx);
      assert t.out[|st.out|] == RecordBytes(sub, false, t.segidx)[0];
    }
  }

  /** The subsegment loop keeps the numbering, and afterwards every subsegment is a key. */
  lemma SubsNumbered(st: EncState, subs: seq<Segment>, oldsegs: seq<Segment>)
    requires (forall s <- subs :: NilFree(s)) && Numbered(st, oldsegs)
    ensures var t := EncodeSubs(st, subs);
      && Numbered(t, oldsegs) && Keeps(st, t)
      && (forall x <- subs :: x in t.segidx)
      && (forall s :: s in t.segidx ==> s in st.segidx || s in subs)
  {
    var i := 0;
    assert Keeps(st, st);
    while i < |subs|
      invariant i <= |subs| && SubsKept(st, subs[..i], oldsegs)
    {
      var q := subs[..i + 1];
      assert q[..i] == subs[..i];
      SubsKeptStep(st, q, oldsegs);
      i := i + 1;
    }
    assert subs[..|subs|] == subs;
  }

  /** SubsNumbered's promise for the subsegment loop over p. */
  ghost predicate SubsKept(st: EncState, p: seq<Segment>, oldsegs: seq<Segment>)
    requires forall s <- p :: NilFree(s)
  {
    var t := EncodeSubs(st, p);
    && Numbered(t, oldsegs) && Keeps(st, t)
    && (forall x <- p :: x in t.segidx)
    && (forall s :: s in t.segidx ==> s in st.segidx || s in p)
  }

  lemma SubsKeptStep(st: EncState, q: seq<Segment>, oldsegs: seq<Segment>)
    requires q != [] && (forall s <- q :: NilFree(s))
    requires SubsKept(st, q[..|q| - 1], oldsegs)
    ensures SubsKept(st, q, oldsegs)
  {
    var p := q[..|q| - 1];
    var x := q[|q| - 1];
    var mid := EncodeSubs(st, p);
    SubDedup(mid, x, oldsegs);
    KeepsTrans(st, mid, EncodeSub(mid, x));
    forall y <- q ensures y in EncodeSubs(st, q).segidx {
      if y != x {
        var k :| 0 <= k < |q| && q[k] == y;
        assert p[k] == y;
      }
    }
  }

  /** One top-level input: Go panics exactly when the input was already
      indexed by this call (not by oldsegs); otherwise it consumes one index
      and is sent last, as itself or as a wrapper around an old segment. */
  lemma TopNumbered(st: EncState, newseg: Segment, oldsegs: seq<Segment>)
    requires NilFree(newseg) && (forall s <- oldsegs :: NilFree(s)) && Numbered(st, oldsegs)
    ensures EncodeTop(st, newseg, oldsegs).None? <==> newseg in st.segidx && newseg !in oldsegs
    ensures EncodeTop(st, newseg, oldsegs).Some? ==>
      var t := EncodeTop(st, newseg, oldsegs).value;
      && Numbered(t, oldsegs) && Keeps(st, t) && newseg in t.segidx
      && |t.sent| > |st.sent|
      && (if newseg in st.segidx then t.sent[|t.sent| - 1] == Wrapper(newseg) && newseg in oldsegs
          else t.sent[|t.sent| - 1] == newseg)
  {
    SubsPhase(st, newseg, oldsegs);
    if newseg in st.segidx {
      TopSeen(st, newseg, oldsegs);
    } else {
      TopFresh(st, newseg, oldsegs);
    }
  }

  /** The subsegment phase of one top-level input keeps the numbering and
      does not index the input itself. */
  lemma SubsPhase(st: EncState, newseg: Segment, oldsegs: seq<Segment>)
    requires NilFree(newseg) && Numbered(st, oldsegs)
    ensures (forall x <- RecursiveSubsegments(newseg) :: NilFree(x))
    ensures var mid := EncodeSubs(st, RecursiveSubsegments(newseg));
      && Numbered(mid, oldsegs) && Keeps(st, mid) && |mid.sent| >= |st.sent|
      && (newseg in mid.segidx <==> newseg in st.segidx)
  {
    var subs := RecursiveSubsegments(newseg);
    RecursiveSubsegmentsPostOrder(newseg);
    RecursiveSubsegmentsSmaller(newseg);
    SubsNumbered(st, subs, oldsegs);
    EncodeSubsExtends(st, subs);
  }

  lemma TopFresh(st: EncState, newseg: Segment, oldsegs: seq<Segment>)
    requires NilFree(newseg) && (forall s <- oldsegs :: NilFree(s)) && Numbered(st, oldsegs)
    requires newseg !in st.segidx && (forall x <- RecursiveSubsegments(newseg) :: NilFree(x))
    requires var mid := EncodeSubs(st, RecursiveSubsegments(newseg));
      Numbered(mid, oldsegs) && Keeps(st, mid) && |mid.sent| >= |st.sent| && newseg !in mid.segidx
    ensures var mid := EncodeSubs(st, RecursiveSubsegments(newseg));
      && EncodeTop(st, newseg, oldsegs) == Some(Announce(mid, newseg, true))
      && Numbered(Announce(mid, newseg, true), oldsegs) && Keeps(st, Announce(mid, newseg, true))
  {
    var mid := EncodeSubs(st, RecursiveSubsegments(newseg));
    FreshNumbered(mid, newseg, true, oldsegs);
    KeepsTrans(st, mid, Announce(mid, newseg, true));
  }

  lemma TopSeen(st: EncState, newseg: Segment, oldsegs: seq<Segment>)
    requires NilFree(newseg) && (forall s <- oldsegs :: NilFree(s)) && Numbered(st, oldsegs)
    requires newseg in st.segidx && (forall x <- RecursiveSubsegments(newseg) :: NilFree(x))
    requires var mid := EncodeSubs(st, RecursiveSubsegments(newseg));
      Numbered(mid, oldsegs) && Keeps(st, mid) && |mid.sent| >= |st.sent| && newseg in mid.segidx
    ensures var mid := EncodeSubs(st, RecursiveSubsegments(newseg));
      if newseg in oldsegs then
        && 0 <= mid.segidx[newseg] < |oldsegs| && oldsegs[mid.segidx[newseg]] == newseg
        && EncodeTop(st, newseg, oldsegs) == Some(Reannounce(mid, newseg))
        && Numbered(Reannounce(mid, newseg), oldsegs) && Keeps(st, Reannounce(mid, newseg))
      else EncodeTop(st, newseg, oldsegs) == None
  {
    var mid := EncodeSubs(st, RecursiveSubsegments(newseg));
    var idx := mid.segidx[newseg];
    if newseg in oldsegs {
      OldIndexed(mid, newseg, oldsegs);
      OldSlot(mid, newseg, oldsegs);
      WrapNumbered(mid, newseg, oldsegs);
      KeepsTrans(st, mid, Reannounce(mid, newseg));
    } else {
      OldSlot(mid, newseg, oldsegs);
    }
  }

  /** The top-level loop keeps the numbering; in particular, throughout it,
      currentIdx == len(oldsegs) + len(sentsegs). */
  lemma {:induction false} AllNumbered(st: EncState, newsegs: seq<Segment>, oldsegs: seq<Segment>)
    requires (forall s <- newsegs :: NilFree(s)) && (forall s <- oldsegs :: NilFree(s))
    requires Numbered(st, oldsegs)
    ensures EncodeAll(st, newsegs, oldsegs).Some? ==>
      Numbered(EncodeAll(st, newsegs, oldsegs).value, oldsegs) && Keeps(st, EncodeAll(st, newsegs, oldsegs).value)
  {
    if newsegs != [] {
      var p := newsegs[..|newsegs| - 1];
      AllNumbered(st, p, oldsegs);
      match EncodeAll(st, p, oldsegs)
      case None =>
      case Some(mid) => TopNumbered(mid, newsegs[|newsegs| - 1], oldsegs);
    }
  }

  /** Patching numsegs into bytes that start with the initial header. */
  lemma PatchedHeader(out: seq<Byte>, cur: int, src: U64, dst: U64)
    requires InitialHeader(src, dst) <= out
    ensures var b := out[..2] + U16BE(Uint16(cur)) + out[4..];
      && |b| == |out| && b[HdrLen..] == out[HdrLen..]
      && b[0] == 0 && b[1] == HdrLen
      && ReadU16(b, 2) == Uint16(cur)
      && ReadU64(b, 4) == src && ReadU64(b, 12) == dst
  {
    var b := out[..2] + U16BE(Uint16(cur)) + out[4..];
    assert out[..HdrLen] == InitialHeader(src, dst);
    assert b[2..4] == U16BE(Uint16(cur));
    assert b[4..12] == out[4..12] == U64BE(src);
    assert b[12..20] == out[12..20] == U64BE(dst);
  }

  /** The 20-byte header: hdrlen 20 at byte 1, numsegs = uint16(len(oldsegs)
      + len(sentsegs)) at bytes 2..4, srcIA and dstIA big-endian at 4..12 and 12..20. */
  lemma HeaderLayout(newsegs: seq<Segment>, oldsegs: seq<Segment>, src: U64, dst: U64)
    requires (forall s <- newsegs :: NilFree(s)) && (forall s <- oldsegs :: NilFree(s))
    ensures var r := EncodeSpec(newsegs, oldsegs, src, dst);
      r.Encoded? ==>
        && |r.bytes| >= HdrLen
        && r.bytes[0] == 0 && r.bytes[1] == HdrLen
        && ReadU16(r.bytes, 2) == Uint16(|oldsegs| + |r.sentsegs|)
        && ReadU64(r.bytes, 4) == src && ReadU64(r.bytes, 12) == dst
  {
    var r := EncodeSpec(newsegs, oldsegs, src, dst);
    if r.Encoded? {
      var f := EncodedFrom(newsegs, oldsegs, src, dst);
      FinalCounts(newsegs, oldsegs, src, dst, f);
      PatchedHeaderOf(f.out, f.cur, src, dst, r.bytes);
    }
  }

  /** An Encoded result is the final state of the top-level loop with numsegs patched in. */
  lemma EncodedFrom(newsegs: seq<Segment>, oldsegs: seq<Segment>, src: U64, dst: U64) returns (f: EncState)
    requires (forall s <- newsegs :: NilFree(s)) && (forall s <- oldsegs :: NilFree(s))
    requires EncodeSpec(newsegs, oldsegs, src, dst).Encoded?
    ensures EncodeAll(Start(oldsegs, src, dst), newsegs, oldsegs) == Some(f)
    ensures EncodeSpec(newsegs, oldsegs, src, dst) == Encoded(f.out[..2] + U16BE(Uint16(f.cur)) + f.out[4..], f.sent)
  {
    f := EncodeAll(Start(oldsegs, src, dst), newsegs, oldsegs).value;
  }

  /** PatchedHeader for bytes b given by name. */
  lemma PatchedHeaderOf(out: seq<Byte>, cur: int, src: U64, dst: U64, b: seq<Byte>)
    requires InitialHeader(src, dst) <= out && b == out[..2] + U16BE(Uint16(cur)) + out[4..]
    ensures |b| >= HdrLen && b[0] == 0 && b[1] == HdrLen
    ensures ReadU16(b, 2) == Uint16(cur) && ReadU64(b, 4) == src && ReadU64(b, 12) == dst
  {
    PatchedHeader(out, cur, src, dst);
  }

  /** After the top-level loop, currentIdx counts the old and the sent
      segments, and the bytes still start with the initial header. */
  lemma FinalCounts(newsegs: seq<Segment>, oldsegs: seq<Segment>, src: U64, dst: U64, f: EncState)
    requires (forall s <- newsegs :: NilFree(s)) && (forall s <- oldsegs :: NilFree(s))
    requires EncodeAll(Start(oldsegs, src, dst), newsegs, oldsegs) == Some(f)
    ensures f.cur == |oldsegs| + |f.sent|
    ensures InitialHeader(src, dst) <= f.out
  {
    var start := Start(oldsegs, src, dst);
    StartNumbered(oldsegs, src, dst);
    AllNumbered(start, newsegs, oldsegs);
    EncodeAllExtends(start, newsegs, oldsegs);
  }
}
