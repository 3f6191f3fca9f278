/** Decoding what EncodeSegments produced: record by record, the decoder
    rebuilds exactly the sent segments, because both sides number segments
    the same way. */
module RoundTrip {
  import opened Bytes
  import opened Segments
  import opened Interfaces
  import opened Record
  import opened Encoder
  import opened Numbering
  import opened Decoder

  /** Every child of seg has an index in segidx naming a slot of
      oldsegs ++ newsegs that holds it, and the index fits in 16 bits. */
  ghost predicate ChildrenResolve(seg: Segment, segidx: map<Segment, int>, oldsegs: seq<Segment>, newsegs: seq<Segment>) {
    seg.Composition? ==>
      forall c <- seg.segs ::
        && c in segidx && 0 <= segidx[c] < 0x1_0000 && segidx[c] < |oldsegs| + |newsegs|
        && (oldsegs + newsegs)[segidx[c]] == c
  }

  /** The header bytes of a record followed by anything. */
  lemma RecordHeaderOf(seg: Segment, accepted: bool, segidx: map<Segment, int>, tail: seq<Byte>)
    requires NilFree(seg) && Entries(seg) < 0x100
    ensures var rec := RecordBytes(seg, accepted, segidx) + tail;
      && |rec| >= 4
      && And(rec[0], SegTypeMask) == (if seg.Literal? then SegTypeLiteral else SegTypeComposition)
      && IsAccepted(rec[0]) == accepted
      && rec[1] == Entries(seg) && ReadU16(rec, 2) == 0
      && rec[4..] == Payload(seg, segidx) + tail
  {
    var r := RecordBytes(seg, accepted, segidx);
    RecordHeader(seg, accepted, segidx);
    Uint8Small(Entries(seg));
    ReadU16Zero(r + tail);
    assert (r + tail)[4..] == r[4..] + tail;
  }

  lemma Uint8Small(x: int)
    requires 0 <= x < 0x100
    ensures x % 0x100 == x
  {
  }

  /** Two zero bytes at offset 2 read as the uint16 0. */
  lemma ReadU16Zero(b: seq<Byte>)
    requires |b| >= 4 && b[2] == 0 && b[3] == 0
    ensures ReadU16(b, 2) == 0
  {
    assert b[2..4] == U16BE(0);
    assert FromBE(U16BE(ReadU16(b, 2))) == FromBE(U16BE(0));
  }

  /** The payload of a composition record, followed by anything, resolves
      back to its children. */
  lemma RefsResolve(segs: seq<Segment>, accepted: bool, segidx: map<Segment, int>,
                    oldsegs: seq<Segment>, newsegs: seq<Segment>, tail: seq<Byte>)
    requires (forall c <- segs :: NilFree(c)) && |segs| < 0x100
    requires ChildrenResolve(Composition(segs), segidx, oldsegs, newsegs)
    ensures var rec := RecordBytes(Composition(segs), accepted, segidx) + tail;
      ResolveRefs(rec, |segs|, oldsegs, newsegs) == Ok(segs)
  {
    var rec := RecordBytes(Composition(segs), accepted, segidx) + tail;
    forall j | 0 <= j < |segs|
      ensures RefAt(rec, j) < |oldsegs| + |newsegs| && (oldsegs + newsegs)[RefAt(rec, j)] == segs[j]
    {
      RefResolves(segs, accepted, segidx, oldsegs, newsegs, tail, j);
    }
    ResolveRefsAll(rec, |segs|, oldsegs, newsegs, segs);
  }

  lemma RefResolves(segs: seq<Segment>, accepted: bool, segidx: map<Segment, int>,
                    oldsegs: seq<Segment>, newsegs: seq<Segment>, tail: seq<Byte>, j: nat)
    requires (forall c <- segs :: NilFree(c)) && j < |segs|
    requires ChildrenResolve(Composition(segs), segidx, oldsegs, newsegs)
    ensures var rec := RecordBytes(Composition(segs), accepted, segidx) + tail;
      && 4 + 2 * j + 2 <= |rec|
      && RefAt(rec, j) < |oldsegs| + |newsegs| && (oldsegs + newsegs)[RefAt(rec, j)] == segs[j]
  {
    RefAtOf(segs, accepted, segidx, tail, j);
    var c := segs[j];
    assert c in segs;
    assert c in segidx && 0 <= segidx[c] < 0x1_0000;
    Uint16Small(segidx[c]);
  }

  /** Slot j of a composition record holds the uint16 of child j's index. */
  lemma RefAtOf(segs: seq<Segment>, accepted: bool, segidx: map<Segment, int>, tail: seq<Byte>, j: nat)
    requires (forall c <- segs :: NilFree(c)) && j < |segs|
    ensures var rec := RecordBytes(Composition(segs), accepted, segidx) + tail;
      4 + 2 * j + 2 <= |rec| && RefAt(rec, j) == Uint16(IndexOf(segidx, segs[j]))
  {
    var r := RecordBytes(Composition(segs), accepted, segidx);
    var rec := r + tail;
    RecordHeader(Composition(segs), accepted, segidx);
    RefsBytesAt(segs, segidx, j);
    var u := Uint16(IndexOf(segidx, segs[j]));
    assert rec[4 + 2 * j..4 + 2 * j + 2] == r[4..][2 * j..2 * j + 2] == U16BE(u);
    assert FromBE(U16BE(RefAt(rec, j))) == FromBE(U16BE(u));
  }

  /** The reference loop succeeds with segs when every reference is in
      range and names the corresponding element of segs. */
  lemma ResolveRefsAll(rec: seq<Byte>, n: nat, oldsegs: seq<Segment>, newsegs: seq<Segment>, segs: seq<Segment>)
    requires 4 + 2 * n <= |rec| && |segs| == n
    requires forall j :: 0 <= j < n ==> RefAt(rec, j) < |oldsegs| + |newsegs| && (oldsegs + newsegs)[RefAt(rec, j)] == segs[j]
    ensures ResolveRefs(rec, n, oldsegs, newsegs) == Ok(segs)
  {
    var subs := ResolveRefs(rec, n, oldsegs, newsegs);
    assert subs.Ok?;
    assert subs.value == segs;
  }

  /** A record EncodeSegment produced, followed by anything, reads back as
      the segment it encodes, with the accepted bit it was given. */
  lemma RecordSegmentOf(seg: Segment, accepted: bool, segidx: map<Segment, int>,
                        oldsegs: seq<Segment>, newsegs: seq<Segment>, tail: seq<Byte>)
    requires NilFree(seg) && Entries(seg) < 0x100
    requires ChildrenResolve(seg, segidx, oldsegs, newsegs)
    ensures var rec := RecordBytes(seg, accepted, segidx) + tail;
      && |rec| >= 4 && RecordLen(rec) == |RecordBytes(seg, accepted, segidx)|
      && IsAccepted(rec[0]) == accepted
      && RecordSegment(rec, oldsegs, newsegs) == Ok(seg)
  {
    RecordHeaderOf(seg, accepted, segidx, tail);
    match seg {
      case Literal(ifaces) =>
        LiteralLayout(ifaces, accepted, segidx);
        IfacesRoundTrip(ifaces, tail);
      case Composition(segs) =>
        CompositionLayout(segs, accepted, segidx);
        RefsResolve(segs, accepted, segidx, oldsegs, newsegs, tail);
    }
  }

  /** Decoding one record EncodeSegment produced fills slot i with its
      segment, moves the cursor past it and records its accepted bit. */
  lemma DecodeRecordOf(st: DecState, i: nat, seg: Segment, accepted: bool, segidx: map<Segment, int>,
                       oldsegs: seq<Segment>, tail: seq<Byte>)
    requires i < |st.newsegs|
    requires NilFree(seg) && Entries(seg) < 0x100
    requires ChildrenResolve(seg, segidx, oldsegs, st.newsegs)
    requires st.rest == RecordBytes(seg, accepted, segidx) + tail
    ensures DecodeRecord(st, i, oldsegs)
         == Ok(DecState(tail, st.newsegs[i := seg], st.accsegs + (if accepted then [seg] else []), st.marks + [accepted]))
  {
    RecordSegmentOf(seg, accepted, segidx, oldsegs, st.newsegs, tail);
  }

  /** The decoder, run on the final bytes f.out, has read the records of st
      so far: its cursor is at the end of st.out and its slots hold st.sent,
      the rest still nil. */
  lemma NilsFill(sent: seq<Segment>, seg: Segment, m: nat)
    requires m > 0
    ensures (sent + Nils(m))[|sent| := seg] == (sent + [seg]) + Nils(m - 1)
  {
  }

  lemma DecodeStepsNext(init: DecState, oldsegs: seq<Segment>, k: nat, st: DecState)
    requires k < |init.newsegs| && DecodeSteps(init, oldsegs, k) == Ok(st)
    ensures DecodeSteps(init, oldsegs, k + 1) == DecodeRecord(st, k, oldsegs)
  {
  }

  lemma SliceSplit(out: seq<Byte>, a: nat, b: nat)
    requires a <= b <= |out|
    ensures out[a..] == out[a..b] + out[b..]
  {
  }

  // ---------------------------------------------------------------------
  // The layout of the final bytes, record by record

  /** Bytes a..b of out are the record of seg with the given accepted bit and table. */
  ghost predicate RecordIn(out: seq<Byte>, a: int, b: int, seg: Segment, accepted: bool, segidx: map<Segment, int>) {
    && 0 <= a <= b <= |out| && NilFree(seg) && Entries(seg) < 0x100
    && out[a..b] == RecordBytes(seg, accepted, segidx)
  }

  /** Every child of seg is a key of segidx naming a slot below lim of all that holds it. */
  ghost predicate ResolvesBelow(seg: Segment, segidx: map<Segment, int>, all: seq<Segment>, lim: nat) {
    && lim <= |all|
    && (seg.Composition? ==> forall c <- seg.segs :: c in segidx && 0 <= segidx[c] < lim && all[segidx[c]] == c)
  }

  /** The first n records after the header of out: record j lies at
      offs[j]..offs[j+1], encodes sent[j] with accepted bit marks[j] under
      table tables[j], and refers only to old segments and earlier records. */
  ghost predicate Laid(out: seq<Byte>, oldsegs: seq<Segment>, sent: seq<Segment>, n: nat,
                       marks: seq<bool>, offs: seq<int>, tables: seq<map<Segment, int>>) {
    && n <= |sent| && |marks| == n && |tables| == n && |offs| == n + 1 && offs[0] == HdrLen
    && forall j :: 0 <= j < n ==> LaidAt(out, oldsegs, sent, marks, offs, tables, j)
  }

  /** Record j of a layout. */
  ghost predicate LaidAt(out: seq<Byte>, oldsegs: seq<Segment>, sent: seq<Segment>,
                         marks: seq<bool>, offs: seq<int>, tables: seq<map<Segment, int>>, j: nat) {
    && j < |sent| && j < |marks| && j < |tables| && j + 1 < |offs|
    && RecordIn(out, offs[j], offs[j + 1], sent[j], marks[j], tables[j])
    && ResolvesBelow(sent[j], tables[j], oldsegs + sent, |oldsegs| + j)
  }

  // ---------------------------------------------------------------------
  // Decoding side: the record loop reads laid-out records back

  /** Children resolving below len(oldsegs) + k resolve in the decoder's
      slots once the first k records are filled in. */
  lemma ChildrenResolvePrefix(seg: Segment, segidx: map<Segment, int>, oldsegs: seq<Segment>, sent: seq<Segment>, k: nat, m: nat)
    requires k <= |sent| && |oldsegs| + k <= 0x1_0000
    requires ResolvesBelow(seg, segidx, oldsegs + sent, |oldsegs| + k)
    ensures ChildrenResolve(seg, segidx, oldsegs, sent[..k] + Nils(m))
  {
    if seg.Composition? {
      forall c <- seg.segs ensures (oldsegs + (sent[..k] + Nils(m)))[segidx[c]] == c {
        assert (oldsegs + (sent[..k] + Nils(m)))[segidx[c]] == (oldsegs + sent)[segidx[c]];
      }
    }
  }

  lemma SelectNext(segs: seq<Segment>, marks: seq<bool>, i: nat)
    requires i < |segs| && i < |marks|
    ensures Select(segs[..i + 1], marks[..i + 1]) == Select(segs[..i], marks[..i]) + (if marks[i] then [segs[i]] else [])
    ensures segs[..i] + [segs[i]] == segs[..i + 1] && marks[..i] + [marks[i]] == marks[..i + 1]
  {
    assert segs[..i + 1][..i] == segs[..i];
    assert marks[..i + 1][..i] == marks[..i];
  }

  /** The state of the record loop after k records of a layout. */
  ghost function LaidState(out: seq<Byte>, N: nat, sent: seq<Segment>, marks: seq<bool>, offs: seq<int>, k: nat): DecState
    requires k <= |sent| <= N && k <= |marks| && k < |offs| && 0 <= offs[k] <= |out|
  {
    DecState(out[offs[k]..], sent[..k] + Nils(N - k), Select(sent[..k], marks[..k]), marks[..k])
  }

  /** Record i of a layout: decoding it moves the loop from LaidState i to LaidState i+1. */
  lemma DecodeLaidRecord(out: seq<Byte>, N: nat, oldsegs: seq<Segment>, sent: seq<Segment>, n: nat,
                         marks: seq<bool>, offs: seq<int>, tables: seq<map<Segment, int>>, i: nat)
    requires Laid(out, oldsegs, sent, n, marks, offs, tables) && i < n
    requires |sent| <= N && |oldsegs| + |sent| <= 0x1_0000
    ensures 0 <= offs[i] <= offs[i + 1] <= |out|
    ensures DecodeRecord(LaidState(out, N, sent, marks, offs, i), i, oldsegs) == Ok(LaidState(out, N, sent, marks, offs, i + 1))
  {
    assert LaidAt(out, oldsegs, sent, marks, offs, tables, i);
    SliceSplit(out, offs[i], offs[i + 1]);
    ChildrenResolvePrefix(sent[i], tables[i], oldsegs, sent, i, N - i);
    DecodeRecordOf(LaidState(out, N, sent, marks, offs, i), i, sent[i], marks[i], tables[i], oldsegs, out[offs[i + 1]..]);
    LaidStateNext(out, N, sent, marks, offs, i);
  }

  /** Filling slot i with sent[i] and noting marks[i] turns LaidState i into LaidState i+1. */
  lemma LaidStateNext(out: seq<Byte>, N: nat, sent: seq<Segment>, marks: seq<bool>, offs: seq<int>, i: nat)
    requires i < |sent| <= N && i < |marks| && i + 1 < |offs| && 0 <= offs[i] <= offs[i + 1] <= |out|
    ensures var st := LaidState(out, N, sent, marks, offs, i);
      DecState(out[offs[i + 1]..], st.newsegs[i := sent[i]], st.accsegs + (if marks[i] then [sent[i]] else []), st.marks + [marks[i]])
      == LaidState(out, N, sent, marks, offs, i + 1)
  {
    NilsFill(sent[..i], sent[i], N - i);
    SelectNext(sent, marks, i);
  }

  /** Before any record, the layout state is the decoder's initial state. */
  lemma LaidStart(out: seq<Byte>, N: nat, sent: seq<Segment>, marks: seq<bool>, offs: seq<int>)
    requires |sent| <= N && 0 < |offs| && offs[0] == HdrLen <= |out|
    ensures LaidState(out, N, sent, marks, offs, 0) == DecState(out[HdrLen..], Nils(N), [], [])
  {
    assert sent[..0] + Nils(N) == Nils(N);
  }

  /** Decoding record k after the first k. */
  lemma StepsChain(init: DecState, oldsegs: seq<Segment>, k: nat, a: DecState, b: DecState)
    requires k < |init.newsegs| && DecodeSteps(init, oldsegs, k) == Ok(a) && DecodeRecord(a, k, oldsegs) == Ok(b)
    ensures DecodeSteps(init, oldsegs, k + 1) == Ok(b)
  {
  }

  /** A layout of n records in out, decoded from init, the decoder's start state with N slots. */
  ghost predicate LaidCtx(out: seq<Byte>, N: nat, oldsegs: seq<Segment>, sent: seq<Segment>, n: nat,
                          marks: seq<bool>, offs: seq<int>, tables: seq<map<Segment, int>>, init: DecState) {
    && Laid(out, oldsegs, sent, n, marks, offs, tables)
    && HdrLen <= |out| && |sent| <= N && |oldsegs| + |sent| <= 0x1_0000
    && init == LaidState(out, N, sent, marks, offs, 0)
  }

  /** The record loop over all n records of a layout. */
  lemma DecodeLaid(out: seq<Byte>, N: nat, oldsegs: seq<Segment>, sent: seq<Segment>, n: nat,
                   marks: seq<bool>, offs: seq<int>, tables: seq<map<Segment, int>>, init: DecState)
    requires LaidCtx(out, N, oldsegs, sent, n, marks, offs, tables, init)
    ensures 0 <= offs[n] <= |out|
    ensures DecodeSteps(init, oldsegs, n) == Ok(LaidState(out, N, sent, marks, offs, n))
  {
    var k := 0;
    assert offs[0] == HdrLen;
    while k < n
      invariant k <= n && 0 <= offs[k] <= |out|
      invariant DecodeSteps(init, oldsegs, k) == Ok(LaidState(out, N, sent, marks, offs, k))
    {
      DecodeLaidStep(out, N, oldsegs, sent, n, marks, offs, tables, k, init);
      k := k + 1;
    }
  }

  /** One more iteration of the record loop over a layout. */
  lemma DecodeLaidStep(out: seq<Byte>, N: nat, oldsegs: seq<Segment>, sent: seq<Segment>, n: nat,
                       marks: seq<bool>, offs: seq<int>, tables: seq<map<Segment, int>>, i: nat, init: DecState)
    requires LaidCtx(out, N, oldsegs, sent, n, marks, offs, tables, init) && i < n
    requires 0 <= offs[i] <= |out| && DecodeSteps(init, oldsegs, i) == Ok(LaidState(out, N, sent, marks, offs, i))
    ensures 0 <= offs[i + 1] <= |out|
    ensures DecodeSteps(init, oldsegs, i + 1) == Ok(LaidState(out, N, sent, marks, offs, i + 1))
  {
    DecodeLaidRecord(out, N, oldsegs, sent, n, marks, offs, tables, i);
    StepsChain(init, oldsegs, i, LaidState(out, N, sent, marks, offs, i), LaidState(out, N, sent, marks, offs, i + 1));
  }

  // ---------------------------------------------------------------------
  // Encoding side: EncodeSegments lays out its records

  /** Every child of seg is a key of segidx naming a slot of oldsegs ++ sent that holds it. */
  ghost predicate Resolvable(seg: Segment, segidx: map<Segment, int>, oldsegs: seq<Segment>, sent: seq<Segment>) {
    seg.Composition? ==>
      forall c <- seg.segs :: c in segidx && 0 <= segidx[c] < |oldsegs| + |sent| && (oldsegs + sent)[segidx[c]] == c
  }

  /** One more record appended after the first k. */
  lemma LaidStep(out: seq<Byte>, oldsegs: seq<Segment>, fsent: seq<Segment>, k: nat,
                 marks: seq<bool>, offs: seq<int>, tables: seq<map<Segment, int>>,
                 before: seq<Byte>, sent: seq<Segment>, seg: Segment, accepted: bool, segidx: map<Segment, int>)
    requires Laid(out, oldsegs, fsent, k, marks, offs, tables) && k == |sent| && offs[k] == |before|
    requires NilFree(seg) && Entries(seg) < 0x100 && Resolvable(seg, segidx, oldsegs, sent)
    requires sent + [seg] <= fsent && before + RecordBytes(seg, accepted, segidx) <= out
    ensures Laid(out, oldsegs, fsent, k + 1, marks + [accepted],
                 offs + [|before + RecordBytes(seg, accepted, segidx)|], tables + [segidx])
  {
    var e := |before + RecordBytes(seg, accepted, segidx)|;
    NewRecordIn(out, oldsegs, fsent, before, sent, seg, accepted, segidx);
    forall j | 0 <= j < k + 1
      ensures LaidAt(out, oldsegs, fsent, marks + [accepted], offs + [e], tables + [segidx], j)
    {
      if j < k {
        assert LaidAt(out, oldsegs, fsent, marks, offs, tables, j);
        assert (offs + [e])[j] == offs[j] && (offs + [e])[j + 1] == offs[j + 1];
        assert (marks + [accepted])[j] == marks[j] && (tables + [segidx])[j] == tables[j];
      } else {
        assert (offs + [e])[j] == |before| && (offs + [e])[j + 1] == e;
      }
    }
  }

  lemma NewRecordIn(out: seq<Byte>, oldsegs: seq<Segment>, fsent: seq<Segment>,
                    before: seq<Byte>, sent: seq<Segment>, seg: Segment, accepted: bool, segidx: map<Segment, int>)
    requires NilFree(seg) && Entries(seg) < 0x100 && Resolvable(seg, segidx, oldsegs, sent)
    requires sent + [seg] <= fsent && before + RecordBytes(seg, accepted, segidx) <= out
    ensures RecordIn(out, |before|, |before + RecordBytes(seg, accepted, segidx)|, fsent[|sent|], accepted, segidx)
    ensures ResolvesBelow(fsent[|sent|], segidx, oldsegs + fsent, |oldsegs| + |sent|)
  {
    var r := RecordBytes(seg, accepted, segidx);
    assert fsent[|sent|] == (sent + [seg])[|sent|] == seg;
    assert out[|before|..|before + r|] == r by {
      assert out[..|before + r|] == before + r;
    }
    if seg.Composition? {
      forall c <- seg.segs ensures (oldsegs + fsent)[segidx[c]] == c {
        assert (oldsegs + fsent)[segidx[c]] == (oldsegs + sent)[segidx[c]];
      }
    }
  }

  /** The layout invariant of the encoder's loops: st's records are the
      first |st.sent| records of the final bytes, and the next one starts
      where st's bytes end. */
  ghost predicate Tracks(st: EncState, f: EncState, oldsegs: seq<Segment>,
                         marks: seq<bool>, offs: seq<int>, tables: seq<map<Segment, int>>) {
    && Laid(f.out, oldsegs, f.sent, |st.sent|, marks, offs, tables) && offs[|st.sent|] == |st.out|
  }

  /** A fresh segment whose children are all keys is laid out as the next record. */
  lemma FreshLaid(st: EncState, seg: Segment, accepted: bool, oldsegs: seq<Segment>, f: EncState,
                  marks: seq<bool>, offs: seq<int>, tables: seq<map<Segment, int>>)
    requires NilFree(seg) && Narrow(seg) && Numbered(st, oldsegs) && seg !in st.segidx
    requires seg.Composition? ==> forall c <- seg.segs :: c in st.segidx
    requires Tracks(st, f, oldsegs, marks, offs, tables)
    requires Announce(st, seg, accepted).out <= f.out && Announce(st, seg, accepted).sent <= f.sent
    ensures Tracks(Announce(st, seg, accepted), f, oldsegs, marks + [accepted],
                   offs + [|Announce(st, seg, accepted).out|], tables + [st.segidx[seg := st.cur]])
  {
    var segidx := st.segidx[seg := st.cur];
    if seg.Composition? {
      forall c <- seg.segs ensures c in segidx && segidx[c] == st.segidx[c] {
        var j :| 0 <= j < |seg.segs| && seg.segs[j] == c;
        SizeAllBound(seg.segs, j);
      }
    }
    assert Resolvable(seg, segidx, oldsegs, st.sent);
    LaidStep(f.out, oldsegs, f.sent, |st.sent|, marks, offs, tables, st.out, st.sent, seg, accepted, segidx);
  }

  /** A wrapper around a key is laid out as the next record. */
  lemma WrapLaid(st: EncState, s: Segment, oldsegs: seq<Segment>, f: EncState,
                 marks: seq<bool>, offs: seq<int>, tables: seq<map<Segment, int>>)
    requires NilFree(s) && Numbered(st, oldsegs) && s in st.segidx
    requires Tracks(st, f, oldsegs, marks, offs, tables)
    requires Reannounce(st, s).out <= f.out && Reannounce(st, s).sent <= f.sent
    ensures Tracks(Reannounce(st, s), f, oldsegs, marks + [true], offs + [|Reannounce(st, s).out|], tables + [st.segidx])
  {
    assert Resolvable(Wrapper(s), st.segidx, oldsegs, st.sent);
    LaidStep(f.out, oldsegs, f.sent, |st.sent|, marks, offs, tables, st.out, st.sent, Wrapper(s), true, st.segidx);
  }

  lemma PostOrderedPrefix(r: seq<Segment>, n: nat)
    requires PostOrdered(r) && n <= |r|
    ensures PostOrdered(r[..n])
  {
    forall i | 0 <= i < n ensures ChildrenIn(r[..n][i], r[..n][..i]) {
      assert r[..n][i] == r[i] && r[..n][..i] == r[..i];
    }
  }

  /** The subsegment loop lays out one unaccepted record per new key. */
  lemma {:induction false} SubsLaid(st: EncState, subs: seq<Segment>, oldsegs: seq<Segment>, f: EncState,
                                    marks: seq<bool>, offs: seq<int>, tables: seq<map<Segment, int>>)
    returns (marks': seq<bool>, offs': seq<int>, tables': seq<map<Segment, int>>)
    requires (forall s <- subs :: NilFree(s)) && (forall s <- subs :: Narrow(s)) && PostOrdered(subs)
    requires Numbered(st, oldsegs) && Tracks(st, f, oldsegs, marks, offs, tables)
    requires EncodeSubs(st, subs).out <= f.out && EncodeSubs(st, subs).sent <= f.sent
    ensures Tracks(EncodeSubs(st, subs), f, oldsegs, marks', offs', tables')
    ensures Select(EncodeSubs(st, subs).sent, marks') == Select(st.sent, marks)
  {
    if subs == [] {
      marks', offs', tables' := marks, offs, tables;
    } else {
      SubsShape(subs);
      SubsState(st, subs[..|subs| - 1], subs[|subs| - 1], oldsegs, f);
      var marks1, offs1, tables1 := SubsLaid(st, subs[..|subs| - 1], oldsegs, f, marks, offs, tables);
      marks', offs', tables' := SubsLast(EncodeSubs(st, subs[..|subs| - 1]), subs[|subs| - 1], oldsegs, f, marks1, offs1, tables1);
    }
  }

  /** The subsegments before the last meet what all of them meet. */
  lemma SubsShape(subs: seq<Segment>)
    requires subs != [] && (forall s <- subs :: NilFree(s)) && (forall s <- subs :: Narrow(s)) && PostOrdered(subs)
    ensures var p := subs[..|subs| - 1];
      && (forall s <- p :: NilFree(s)) && (forall s <- p :: Narrow(s)) && PostOrdered(p)
      && NilFree(subs[|subs| - 1]) && Narrow(subs[|subs| - 1]) && ChildrenIn(subs[|subs| - 1], p)
  {
    InitPrefix(subs);
    PostOrderedPrefix(subs, |subs| - 1);
  }

  /** The encoder state before the last subsegment: prefixes of the final
      output, numbered, and already keyed by the last one's children. */
  lemma SubsState(st: EncState, p: seq<Segment>, x: Segment, oldsegs: seq<Segment>, f: EncState)
    requires (forall s <- p :: NilFree(s)) && NilFree(x) && ChildrenIn(x, p) && Numbered(st, oldsegs)
    requires EncodeSub(EncodeSubs(st, p), x).out <= f.out && EncodeSub(EncodeSubs(st, p), x).sent <= f.sent
    ensures EncodeSubs(st, p).out <= f.out && EncodeSubs(st, p).sent <= f.sent
    ensures Numbered(EncodeSubs(st, p), oldsegs)
    ensures x.Composition? ==> forall c <- x.segs :: c in EncodeSubs(st, p).segidx
  {
    var mid := EncodeSubs(st, p);
    EncodeSubExtends(mid, x);
    PrefixTrans(mid.out, EncodeSub(mid, x).out, f.out);
    PrefixTrans(mid.sent, EncodeSub(mid, x).sent, f.sent);
    SubsNumbered(st, p, oldsegs);
  }

  /** The last subsegment: a record with the accepted bit clear when it is not yet a key. */
  lemma SubsLast(mid: EncState, x: Segment, oldsegs: seq<Segment>, f: EncState,
                 marks: seq<bool>, offs: seq<int>, tables: seq<map<Segment, int>>)
    returns (marks': seq<bool>, offs': seq<int>, tables': seq<map<Segment, int>>)
    requires NilFree(x) && Narrow(x) && Numbered(mid, oldsegs) && Tracks(mid, f, oldsegs, marks, offs, tables)
    requires x.Composition? ==> forall c <- x.segs :: c in mid.segidx
    requires EncodeSub(mid, x).out <= f.out && EncodeSub(mid, x).sent <= f.sent
    ensures Tracks(EncodeSub(mid, x), f, oldsegs, marks', offs', tables')
    ensures Select(EncodeSub(mid, x).sent, marks') == Select(mid.sent, marks)
  {
    if x in mid.segidx {
      marks', offs', tables' := marks, offs, tables;
    } else {
      FreshLaid(mid, x, false, oldsegs, f, marks, offs, tables);
      SelectSnoc(mid.sent, marks, x, false);
      marks', offs', tables' := marks + [false], offs + [|Announce(mid, x, false).out|], tables + [mid.segidx[x := mid.cur]];
    }
  }

  /** The accepted segment the decoder reports for top-level input x: x
      itself, or a wrapper around it when x is an old segment. */
  predicate AcceptedAs(a: Segment, x: Segment, oldsegs: seq<Segment>) {
    a == x || (a == Wrapper(x) && x in oldsegs)
  }

  /** One top-level input: its subsegment records, then exactly one
      accepted record, for the input itself or for a wrapper around it. */
  lemma TopLaid(st: EncState, newseg: Segment, oldsegs: seq<Segment>, f: EncState,
                marks: seq<bool>, offs: seq<int>, tables: seq<map<Segment, int>>, t: EncState)
    returns (a: Segment, marks': seq<bool>, offs': seq<int>, tables': seq<map<Segment, int>>)
    requires NilFree(newseg) && Narrow(newseg) && (forall s <- oldsegs :: NilFree(s))
    requires Numbered(st, oldsegs) && Tracks(st, f, oldsegs, marks, offs, tables)
    requires EncodeTop(st, newseg, oldsegs) == Some(t) && t.out <= f.out && t.sent <= f.sent
    ensures Tracks(t, f, oldsegs, marks', offs', tables')
    ensures Select(t.sent, marks') == Select(st.sent, marks) + [a]
    ensures AcceptedAs(a, newseg, oldsegs)
  {
    var subs := RecursiveSubsegments(newseg);
    RecursiveSubsegmentsPostOrder(newseg);
    TopPre(st, newseg, oldsegs, f, t);
    var mid := EncodeSubs(st, subs);
    var marks1, offs1, tables1 := SubsLaid(st, subs, oldsegs, f, marks, offs, tables);
    SubsNumbered(st, subs, oldsegs);
    if newseg !in mid.segidx {
      a, marks', offs', tables' := TopLaidFresh(st, newseg, oldsegs, f, marks1, offs1, tables1, t);
    } else {
      a, marks', offs', tables' := TopLaidSeen(st, newseg, oldsegs, f, marks1, offs1, tables1, t);
    }
  }

  /** The subsegment phase of one input ends on a prefix of the final bytes and sent segments. */
  lemma TopPre(st: EncState, newseg: Segment, oldsegs: seq<Segment>, f: EncState, t: EncState)
    requires NilFree(newseg) && (forall s <- oldsegs :: NilFree(s))
    requires forall x <- RecursiveSubsegments(newseg) :: NilFree(x)
    requires EncodeTop(st, newseg, oldsegs) == Some(t) && t.out <= f.out && t.sent <= f.sent
    ensures var mid := EncodeSubs(st, RecursiveSubsegments(newseg));
      mid.out <= f.out && mid.sent <= f.sent
  {
    var mid := EncodeSubs(st, RecursiveSubsegments(newseg));
    assert mid.out <= t.out && mid.sent <= t.sent;
    PrefixTrans(mid.out, t.out, f.out);
    PrefixTrans(mid.sent, t.sent, f.sent);
  }

  /** The accepted record of an input that is not yet a key: the input itself. */
  lemma TopLaidFresh(st: EncState, newseg: Segment, oldsegs: seq<Segment>, f: EncState,
                     marks: seq<bool>, offs: seq<int>, tables: seq<map<Segment, int>>, t: EncState)
    returns (a: Segment, marks': seq<bool>, offs': seq<int>, tables': seq<map<Segment, int>>)
    requires NilFree(newseg) && Narrow(newseg) && (forall s <- oldsegs :: NilFree(s))
    requires (forall x <- RecursiveSubsegments(newseg) :: NilFree(x)) && ChildrenIn(newseg, RecursiveSubsegments(newseg))
    requires var mid := EncodeSubs(st, RecursiveSubsegments(newseg));
      && Numbered(mid, oldsegs) && Tracks(mid, f, oldsegs, marks, offs, tables)
      && (forall x <- RecursiveSubsegments(newseg) :: x in mid.segidx) && newseg !in mid.segidx
    requires EncodeTop(st, newseg, oldsegs) == Some(t) && t.out <= f.out && t.sent <= f.sent
    ensures Tracks(t, f, oldsegs, marks', offs', tables')
    ensures Select(t.sent, marks') == Select(EncodeSubs(st, RecursiveSubsegments(newseg)).sent, marks) + [a]
    ensures a == newseg
  {
    var mid := EncodeSubs(st, RecursiveSubsegments(newseg));
    assert t == Announce(mid, newseg, true);
    FreshLaid(mid, newseg, true, oldsegs, f, marks, offs, tables);
    SelectSnoc(mid.sent, marks, newseg, true);
    a := newseg;
    marks', offs', tables' := marks + [true], offs + [|t.out|], tables + [mid.segidx[newseg := mid.cur]];
  }

  /** The accepted record of an input that is already a key: a wrapper
      around the old segment it names. */
  lemma TopLaidSeen(st: EncState, newseg: Segment, oldsegs: seq<Segment>, f: EncState,
                    marks: seq<bool>, offs: seq<int>, tables: seq<map<Segment, int>>, t: EncState)
    returns (a: Segment, marks': seq<bool>, offs': seq<int>, tables': seq<map<Segment, int>>)
    requires NilFree(newseg) && (forall s <- oldsegs :: NilFree(s))
    requires forall x <- RecursiveSubsegments(newseg) :: NilFree(x)
    requires var mid := EncodeSubs(st, RecursiveSubsegments(newseg));
      && Numbered(mid, oldsegs) && Tracks(mid, f, oldsegs, marks, offs, tables) && newseg in mid.segidx
    requires EncodeTop(st, newseg, oldsegs) == Some(t) && t.out <= f.out && t.sent <= f.sent
    ensures Tracks(t, f, oldsegs, marks', offs', tables')
    ensures Select(t.sent, marks') == Select(EncodeSubs(st, RecursiveSubsegments(newseg)).sent, marks) + [a]
    ensures a == Wrapper(newseg) && newseg in oldsegs
  {
    var mid := EncodeSubs(st, RecursiveSubsegments(newseg));
    OldSlot(mid, newseg, oldsegs);
    assert t == Reannounce(mid, newseg);
    WrapLaid(mid, newseg, oldsegs, f, marks, offs, tables);
    SelectSnoc(mid.sent, marks, Wrapper(newseg), true);
    a := Wrapper(newseg);
    marks', offs', tables' := marks + [true], offs + [|t.out|], tables + [mid.segidx];
  }

  /** One step of the top-level loop, unfolded. */
  lemma AllStep(st: EncState, newsegs: seq<Segment>, oldsegs: seq<Segment>, t: EncState) returns (mid: EncState)
    requires newsegs != [] && (forall s <- newsegs :: NilFree(s)) && (forall s <- oldsegs :: NilFree(s))
    requires EncodeAll(st, newsegs, oldsegs) == Some(t)
    ensures EncodeAll(st, newsegs[..|newsegs| - 1], oldsegs) == Some(mid)
    ensures EncodeTop(mid, newsegs[|newsegs| - 1], oldsegs) == Some(t)
  {
    mid := EncodeAll(st, newsegs[..|newsegs| - 1], oldsegs).value;
  }

  lemma PrefixTrans<T>(a: seq<T>, b: seq<T>, c: seq<T>)
    requires a <= b && b <= c
    ensures a <= c
  {
    assert c[..|a|] == c[..|b|][..|a|];
  }

  /** The inputs before the last meet what all the inputs meet. */
  lemma InitPrefix(newsegs: seq<Segment>)
    requires newsegs != [] && (forall s <- newsegs :: NilFree(s)) && (forall s <- newsegs :: Narrow(s))
    ensures var p := newsegs[..|newsegs| - 1];
      && (forall s <- p :: NilFree(s)) && (forall s <- p :: Narrow(s))
      && NilFree(newsegs[|newsegs| - 1]) && Narrow(newsegs[|newsegs| - 1])
  {
    var p := newsegs[..|newsegs| - 1];
    assert newsegs[|newsegs| - 1] in newsegs;
    forall s <- p ensures s in newsegs {
      var i :| 0 <= i < |p| && p[i] == s;
      assert newsegs[i] == s;
    }
  }

  lemma AcceptedSnoc(acc: seq<Segment>, a: Segment, newsegs: seq<Segment>, oldsegs: seq<Segment>)
    requires newsegs != [] && |acc| == |newsegs| - 1 && AcceptedAs(a, newsegs[|newsegs| - 1], oldsegs)
    requires forall k :: 0 <= k < |acc| ==> AcceptedAs(acc[k], newsegs[k], oldsegs)
    ensures forall k :: 0 <= k < |newsegs| ==> AcceptedAs((acc + [a])[k], newsegs[k], oldsegs)
  {
    forall k | 0 <= k < |newsegs| ensures AcceptedAs((acc + [a])[k], newsegs[k], oldsegs) {
      if k < |acc| {
        assert (acc + [a])[k] == acc[k];
      } else {
        assert (acc + [a])[k] == a;
      }
    }
  }

  /** The top-level loop: one accepted record per input, in input order. */
  lemma {:induction false} AllLaid(st: EncState, newsegs: seq<Segment>, oldsegs: seq<Segment>, f: EncState,
                                   marks: seq<bool>, offs: seq<int>, tables: seq<map<Segment, int>>, t: EncState)
    returns (acc: seq<Segment>, marks': seq<bool>, offs': seq<int>, tables': seq<map<Segment, int>>)
    requires (forall s <- newsegs :: NilFree(s)) && (forall s <- newsegs :: Narrow(s))
    requires forall s <- oldsegs :: NilFree(s)
    requires Numbered(st, oldsegs) && Tracks(st, f, oldsegs, marks, offs, tables)
    requires EncodeAll(st, newsegs, oldsegs) == Some(t) && t.out <= f.out && t.sent <= f.sent
    ensures Tracks(t, f, oldsegs, marks', offs', tables')
    ensures Select(t.sent, marks') == Select(st.sent, marks) + acc
    ensures |acc| == |newsegs|
    ensures forall k :: 0 <= k < |newsegs| ==> AcceptedAs(acc[k], newsegs[k], oldsegs)
  {
    if newsegs == [] {
      acc, marks', offs', tables' := [], marks, offs, tables;
    } else {
      var mid := AllPre(st, newsegs, oldsegs, f, t);
      var acc1, marks1, offs1, tables1 := AllLaid(st, newsegs[..|newsegs| - 1], oldsegs, f, marks, offs, tables, mid);
      acc, marks', offs', tables' := AllLast(Select(st.sent, marks), newsegs, oldsegs, f, t, mid, acc1, marks1, offs1, tables1);
    }
  }

  /** The state after all inputs but the last, with what AllLaid needs of it. */
  lemma AllPre(st: EncState, newsegs: seq<Segment>, oldsegs: seq<Segment>, f: EncState, t: EncState) returns (mid: EncState)
    requires newsegs != [] && (forall s <- newsegs :: NilFree(s)) && (forall s <- newsegs :: Narrow(s))
    requires forall s <- oldsegs :: NilFree(s)
    requires Numbered(st, oldsegs)
    requires EncodeAll(st, newsegs, oldsegs) == Some(t) && t.out <= f.out && t.sent <= f.sent
    ensures var p := newsegs[..|newsegs| - 1];
      && (forall s <- p :: NilFree(s)) && (forall s <- p :: Narrow(s))
      && NilFree(newsegs[|newsegs| - 1]) && Narrow(newsegs[|newsegs| - 1])
      && EncodeAll(st, p, oldsegs) == Some(mid) && mid.out <= f.out && mid.sent <= f.sent
      && EncodeTop(mid, newsegs[|newsegs| - 1], oldsegs) == Some(t)
      && Numbered(mid, oldsegs)
  {
    mid := AllStep(st, newsegs, oldsegs, t);
    InitPrefix(newsegs);
    EncodeTopExtends(mid, newsegs[|newsegs| - 1], oldsegs);
    PrefixTrans(mid.out, t.out, f.out);
    PrefixTrans(mid.sent, t.sent, f.sent);
    AllNumbered(st, newsegs[..|newsegs| - 1], oldsegs);
  }

  /** The last input of the top-level loop, on top of the layout of the others. */
  lemma AllLast(base: seq<Segment>, newsegs: seq<Segment>, oldsegs: seq<Segment>, f: EncState, t: EncState, mid: EncState,
                acc1: seq<Segment>, marks1: seq<bool>, offs1: seq<int>, tables1: seq<map<Segment, int>>)
    returns (acc: seq<Segment>, marks': seq<bool>, offs': seq<int>, tables': seq<map<Segment, int>>)
    requires newsegs != [] && NilFree(newsegs[|newsegs| - 1]) && Narrow(newsegs[|newsegs| - 1])
    requires forall s <- oldsegs :: NilFree(s)
    requires Numbered(mid, oldsegs) && Tracks(mid, f, oldsegs, marks1, offs1, tables1)
    requires EncodeTop(mid, newsegs[|newsegs| - 1], oldsegs) == Some(t) && t.out <= f.out && t.sent <= f.sent
    requires Select(mid.sent, marks1) == base + acc1
    requires |acc1| == |newsegs| - 1
    requires forall k :: 0 <= k < |newsegs| - 1 ==> AcceptedAs(acc1[k], newsegs[k], oldsegs)
    ensures Tracks(t, f, oldsegs, marks', offs', tables')
    ensures Select(t.sent, marks') == base + acc
    ensures |acc| == |newsegs|
    ensures forall k :: 0 <= k < |newsegs| ==> AcceptedAs(acc[k], newsegs[k], oldsegs)
  {
    var a;
    a, marks', offs', tables' := TopLaid(mid, newsegs[|newsegs| - 1], oldsegs, f, marks1, offs1, tables1, t);
    AcceptedSnoc(acc1, a, newsegs, oldsegs);
    acc := acc1 + [a];
    assert base + acc1 + [a] == base + acc;
  }

  // ---------------------------------------------------------------------
  // The round trip

  /** Decoding the bytes EncodeSegments returns. With no old segments, the
      decoder gives back the sent segments as newsegs and the inputs as
      accsegs. With old segments, the header's numsegs also counts them,
      so the decoder looks for more records than were written and runs off
      the end of the buffer (a Go panic). */
  lemma DecodeOfEncode(newsegs: seq<Segment>, oldsegs: seq<Segment>, src: U64, dst: U64)
    requires (forall s <- newsegs :: NilFree(s)) && (forall s <- newsegs :: Narrow(s))
    requires forall s <- oldsegs :: NilFree(s)
    requires EncodeSpec(newsegs, oldsegs, src, dst).Encoded?
    requires |oldsegs| + |EncodeSpec(newsegs, oldsegs, src, dst).sentsegs| < 0x1_0000
    ensures var e := EncodeSpec(newsegs, oldsegs, src, dst);
      DecodeSpec(e.bytes, oldsegs) == if oldsegs == [] then Decoded(e.sentsegs, newsegs, src, dst) else Panicked
    ensures forall s <- EncodeSpec(newsegs, oldsegs, src, dst).sentsegs :: NilFree(s)
  {
    var start := Start(oldsegs, src, dst);
    var f := EncodedFrom(newsegs, oldsegs, src, dst);
    StartNumbered(oldsegs, src, dst);
    AllNumbered(start, newsegs, oldsegs);
    EncodeAllExtends(start, newsegs, oldsegs);
    assert Tracks(start, f, oldsegs, [], [HdrLen], []);
    var acc, marks, offs, tables := AllLaid(start, newsegs, oldsegs, f, [], [HdrLen], [], f);
    LaidNilFree(f.out, oldsegs, f.sent, marks, offs, tables);
    var n := |f.sent|;
    LaidStart(f.out, f.cur, f.sent, marks, offs);
    DecodeLaid(f.out, f.cur, oldsegs, f.sent, n, marks, offs, tables, DecState(f.out[HdrLen..], Nils(f.cur), [], []));
    PatchedHeader(f.out, f.cur, src, dst);
    FinalDecode(oldsegs, src, dst, f, acc, marks, offs, f.out[..2] + U16BE(Uint16(f.cur)) + f.out[4..]);
    AcceptedAsNoOld(acc, newsegs, oldsegs);
  }

  /** Without old segments, every input is accepted as itself. */
  lemma AcceptedAsNoOld(acc: seq<Segment>, newsegs: seq<Segment>, oldsegs: seq<Segment>)
    requires |acc| == |newsegs| && forall k :: 0 <= k < |newsegs| ==> AcceptedAs(acc[k], newsegs[k], oldsegs)
    ensures oldsegs == [] ==> acc == newsegs
  {
  }

  /** Every record of a complete layout is nil-free. */
  lemma LaidNilFree(out: seq<Byte>, oldsegs: seq<Segment>, sent: seq<Segment>,
                    marks: seq<bool>, offs: seq<int>, tables: seq<map<Segment, int>>)
    requires Laid(out, oldsegs, sent, |sent|, marks, offs, tables)
    ensures forall s <- sent :: NilFree(s)
  {
    forall s <- sent ensures NilFree(s) {
      var j :| 0 <= j < |sent| && sent[j] == s;
      assert LaidAt(out, oldsegs, sent, marks, offs, tables, j);
    }
  }

  /** The last step of a round trip: from the decoded records of the final
      state f (of either encoder) to DecodeSpec on the patched bytes b. */
  lemma FinalDecode(oldsegs: seq<Segment>, src: U64, dst: U64, f: EncState,
                    acc: seq<Segment>, marks: seq<bool>, offs: seq<int>, b: seq<Byte>)
    requires f.cur == |oldsegs| + |f.sent| < 0x1_0000 && HdrLen <= |f.out|
    requires |marks| == |f.sent| && |offs| == |f.sent| + 1 && offs[|f.sent|] == |f.out|
    requires Select(f.sent, marks) == acc
    requires DecodeSteps(DecState(f.out[HdrLen..], Nils(f.cur), [], []), oldsegs, |f.sent|)
          == Ok(LaidState(f.out, f.cur, f.sent, marks, offs, |f.sent|))
    requires |b| == |f.out| && b[HdrLen..] == f.out[HdrLen..] && b[1] == HdrLen
    requires ReadU16(b, 2) == Uint16(f.cur) && ReadU64(b, 4) == src && ReadU64(b, 12) == dst
    ensures DecodeSpec(b, oldsegs) == if oldsegs == [] then Decoded(f.sent, acc, src, dst) else Panicked
  {
    var init := DecState(f.out[HdrLen..], Nils(f.cur), [], []);
    var last := LaidState(f.out, f.cur, f.sent, marks, offs, |f.sent|);
    LastState(f.out, f.cur, f.sent, marks, offs);
    Uint16Small(f.cur);
    if oldsegs == [] {
      DecodeHeader(b, f.out, f.cur, |f.sent|, oldsegs, src, dst, Ok(last));
    } else {
      ExtraSlotTruncated(init, oldsegs, |f.sent|, f.cur, last);
      DecodeHeader(b, f.out, f.cur, f.cur, oldsegs, src, dst, Err(Truncated));
    }
  }

  /** With slots left over once the bytes are used up, the next record is
      truncated and the loop ends with that error. */
  lemma ExtraSlotTruncated(init: DecState, oldsegs: seq<Segment>, k: nat, n: nat, last: DecState)
    requires k < n == |init.newsegs| && DecodeSteps(init, oldsegs, k) == Ok(last) && last.rest == []
    ensures DecodeSteps(init, oldsegs, n) == Err(Truncated)
  {
    DecodeStepsNext(init, oldsegs, k, last);
    assert DecodeSteps(init, oldsegs, k + 1) == Err(Truncated);
    DecodeStepsStaysErr(init, oldsegs, k + 1, n);
  }

  lemma Uint16Small(x: int)
    requires 0 <= x < 0x1_0000
    ensures Uint16(x) == x
  {
  }

  /** The loop state after the last record of the layout of out. */
  lemma LastState(out: seq<Byte>, N: nat, sent: seq<Segment>, marks: seq<bool>, offs: seq<int>)
    requires |sent| <= N && |marks| == |sent| && |offs| == |sent| + 1 && offs[|sent|] == |out|
    ensures var last := LaidState(out, N, sent, marks, offs, |sent|);
      last.rest == [] && last.newsegs == sent + Nils(N - |sent|) && last.accsegs == Select(sent, marks)
  {
    assert sent[..|sent|] == sent && marks[..|marks|] == marks;
    assert out[|out|..] == [];
  }

  /** DecodeSpec on a 20-byte header followed by the records of out. */
  lemma DecodeHeader(b: seq<Byte>, out: seq<Byte>, n: U16, k: nat, oldsegs: seq<Segment>, src: U64, dst: U64, res: Result<DecState>)
    requires |b| == |out| && HdrLen <= |out| && b[HdrLen..] == out[HdrLen..] && b[1] == HdrLen
    requires ReadU16(b, 2) == n && ReadU64(b, 4) == src && ReadU64(b, 12) == dst
    requires k == n && DecodeSteps(DecState(out[HdrLen..], Nils(n), [], []), oldsegs, k) == res
    ensures res.Ok? ==> DecodeSpec(b, oldsegs) == Decoded(res.value.newsegs, res.value.accsegs, src, dst)
    ensures res == Err(Truncated) ==> DecodeSpec(b, oldsegs) == Panicked
  {
  }
}
