/** The seen-before branch of EncodeSegments. As written, it re-announces
    oldsegs[idx] for the index idx found in the table, which is only in
    range when the input came from oldsegs; an input already sent earlier
    in the same call makes Go index past the end of oldsegs. The intended
    behaviour re-announces the indexed input itself, as a one-child
    wrapper, wherever its index came from. */
module Intended {
  import opened Bytes
  import opened Segments
  import opened Record
  import opened Encoder
  import opened Numbering
  import opened Decoder
  import opened RoundTrip

  // ---------------------------------------------------------------------
  // As written

  /** Two copies of one input that is not an old segment make Go panic. */
  lemma RepeatedInputPanics(a: Segment, oldsegs: seq<Segment>, src: U64, dst: U64)
    requires NilFree(a) && (forall s <- oldsegs :: NilFree(s)) && a !in oldsegs
    ensures EncodeSpec([a, a], oldsegs, src, dst) == EncodePanicked
  {
    var t := FirstCopy(a, oldsegs, src, dst);
    TopNumbered(t, a, oldsegs);
    AllSnoc(Start(oldsegs, src, dst), [a], a, oldsegs);
    assert [a] + [a] == [a, a];
  }

  /** The top-level loop over p + [x] is the loop over p, then x. */
  lemma AllSnoc(st: EncState, p: seq<Segment>, x: Segment, oldsegs: seq<Segment>)
    requires (forall s <- p :: NilFree(s)) && NilFree(x) && (forall s <- oldsegs :: NilFree(s))
    ensures EncodeAll(st, p + [x], oldsegs)
         == if EncodeAll(st, p, oldsegs).None? then None else EncodeTop(EncodeAll(st, p, oldsegs).value, x, oldsegs)
  {
    assert (p + [x])[..|p|] == p;
  }

  /** The first copy is sent in full and leaves the input indexed. */
  lemma FirstCopy(a: Segment, oldsegs: seq<Segment>, src: U64, dst: U64) returns (t: EncState)
    requires NilFree(a) && (forall s <- oldsegs :: NilFree(s)) && a !in oldsegs
    ensures EncodeAll(Start(oldsegs, src, dst), [a], oldsegs) == Some(t)
    ensures Numbered(t, oldsegs) && a in t.segidx
  {
    var start := Start(oldsegs, src, dst);
    StartNumbered(oldsegs, src, dst);
    TopNumbered(start, a, oldsegs);
    t := EncodeTop(start, a, oldsegs).value;
    assert [a][..0] == [];
  }

  // ---------------------------------------------------------------------
  // As intended

  /** One top-level input with the seen-before branch wrapping the input itself. */
  function IntendedTop(st: EncState, newseg: Segment): EncState
    requires NilFree(newseg)
  {
    RecursiveSubsegmentsPostOrder(newseg);
    var mid := EncodeSubs(st, RecursiveSubsegments(newseg));
    if newseg !in mid.segidx then Announce(mid, newseg, true) else Reannounce(mid, newseg)
  }

  /** The top-level loop with IntendedTop: it has no failure path. */
  function IntendedAll(st: EncState, newsegs: seq<Segment>): EncState
    requires forall s <- newsegs :: NilFree(s)
  {
    if newsegs == [] then st else IntendedTop(IntendedAll(st, newsegs[..|newsegs| - 1]), newsegs[|newsegs| - 1])
  }

  /** EncodeSegments with the intended seen-before branch. */
  function IntendedSpec(newsegs: seq<Segment>, oldsegs: seq<Segment>, src: U64, dst: U64): EncodeResult
    requires forall s <- newsegs :: NilFree(s)
  {
    var st := IntendedAll(Start(oldsegs, src, dst), newsegs);
    IntendedExtends(Start(oldsegs, src, dst), newsegs);
    Encoded(st.out[..2] + U16BE(Uint16(st.cur)) + st.out[4..], st.sent)
  }

  /** The intended loops only append, like the ones as written. */
  lemma {:induction false} IntendedExtends(st: EncState, newsegs: seq<Segment>)
    requires forall s <- newsegs :: NilFree(s)
    ensures st.out <= IntendedAll(st, newsegs).out && st.sent <= IntendedAll(st, newsegs).sent
  {
    if newsegs != [] {
      var p := newsegs[..|newsegs| - 1];
      var x := newsegs[|newsegs| - 1];
      IntendedExtends(st, p);
      var mid := IntendedAll(st, p);
      IntendedTopExtends(mid, x);
      PrefixTrans(st.out, mid.out, IntendedAll(st, newsegs).out);
      PrefixTrans(st.sent, mid.sent, IntendedAll(st, newsegs).sent);
    }
  }

  lemma IntendedTopExtends(st: EncState, newseg: Segment)
    requires NilFree(newseg)
    ensures forall x <- RecursiveSubsegments(newseg) :: NilFree(x)
    ensures var mid := EncodeSubs(st, RecursiveSubsegments(newseg)); var t := IntendedTop(st, newseg);
      && st.out <= mid.out <= t.out && st.sent <= mid.sent <= t.sent
  {
    RecursiveSubsegmentsPostOrder(newseg);
    EncodeSubsExtends(st, RecursiveSubsegments(newseg));
  }

  /** Wherever the code as written does not panic, it does what IntendedTop does. */
  lemma IntendedTopAgrees(st: EncState, newseg: Segment, oldsegs: seq<Segment>)
    requires NilFree(newseg) && (forall s <- oldsegs :: NilFree(s)) && Numbered(st, oldsegs)
    ensures EncodeTop(st, newseg, oldsegs).Some? ==> EncodeTop(st, newseg, oldsegs) == Some(IntendedTop(st, newseg))
  {
    SubsPhase(st, newseg, oldsegs);
    var mid := EncodeSubs(st, RecursiveSubsegments(newseg));
    if newseg in mid.segidx {
      OldSlot(mid, newseg, oldsegs);
    }
  }

  /** The intended step keeps the numbering, consumes exactly one index for
      the input after its new subsegments, and sends the input or its wrapper last. */
  lemma IntendedTopNumbered(st: EncState, newseg: Segment, oldsegs: seq<Segment>)
    requires NilFree(newseg) && Numbered(st, oldsegs)
    ensures var t := IntendedTop(st, newseg);
      && Numbered(t, oldsegs) && Keeps(st, t) && newseg in t.segidx
      && |t.sent| > |st.sent|
      && t.sent[|t.sent| - 1] == (if newseg in st.segidx then Wrapper(newseg) else newseg)
  {
    SubsPhase(st, newseg, oldsegs);
    var mid := EncodeSubs(st, RecursiveSubsegments(newseg));
    if newseg in mid.segidx {
      WrapKept(st, mid, newseg, oldsegs);
    } else {
      FreshKept(st, mid, newseg, oldsegs);
    }
  }

  lemma WrapKept(st: EncState, mid: EncState, s: Segment, oldsegs: seq<Segment>)
    requires NilFree(s) && Numbered(mid, oldsegs) && Keeps(st, mid) && s in mid.segidx
    ensures var t := Reannounce(mid, s);
      Numbered(t, oldsegs) && Keeps(st, t) && s in t.segidx
  {
    WrapNumbered(mid, s, oldsegs);
    KeepsTrans(st, mid, Reannounce(mid, s));
  }

  lemma FreshKept(st: EncState, mid: EncState, s: Segment, oldsegs: seq<Segment>)
    requires NilFree(s) && Numbered(mid, oldsegs) && Keeps(st, mid) && s !in mid.segidx
    ensures var t := Announce(mid, s, true);
      Numbered(t, oldsegs) && Keeps(st, t) && s in t.segidx
  {
    FreshNumbered(mid, s, true, oldsegs);
    KeepsTrans(st, mid, Announce(mid, s, true));
  }

  /** Wherever the code as written does not panic, its whole loop agrees with the intended one. */
  lemma {:induction false} IntendedAllAgrees(st: EncState, newsegs: seq<Segment>, oldsegs: seq<Segment>)
    requires (forall s <- newsegs :: NilFree(s)) && (forall s <- oldsegs :: NilFree(s)) && Numbered(st, oldsegs)
    ensures EncodeAll(st, newsegs, oldsegs).Some? ==> EncodeAll(st, newsegs, oldsegs) == Some(IntendedAll(st, newsegs))
  {
    if newsegs != [] {
      var p := newsegs[..|newsegs| - 1];
      IntendedAllAgrees(st, p, oldsegs);
      AllNumbered(st, p, oldsegs);
      match EncodeAll(st, p, oldsegs)
      case None =>
      case Some(mid) => IntendedTopAgrees(mid, newsegs[|newsegs| - 1], oldsegs);
    }
  }

  /** Every result of EncodeSegments as written is the intended one, so what
      is proved about its bytes holds of the intended encoder on those inputs. */
  lemma IntendedSpecAgrees(newsegs: seq<Segment>, oldsegs: seq<Segment>, src: U64, dst: U64)
    requires (forall s <- newsegs :: NilFree(s)) && (forall s <- oldsegs :: NilFree(s))
    ensures EncodeSpec(newsegs, oldsegs, src, dst).Encoded? ==>
      EncodeSpec(newsegs, oldsegs, src, dst) == IntendedSpec(newsegs, oldsegs, src, dst)
  {
    StartNumbered(oldsegs, src, dst);
    IntendedAllAgrees(Start(oldsegs, src, dst), newsegs, oldsegs);
  }

  /** The subsegment loop over segments that are all indexed emits nothing. */
  lemma {:induction false} EncodeSubsKnown(st: EncState, subs: seq<Segment>)
    requires (forall s <- subs :: NilFree(s)) && (forall s <- subs :: s in st.segidx)
    ensures EncodeSubs(st, subs) == st
  {
    if subs != [] {
      var p := subs[..|subs| - 1];
      assert forall s <- p :: s in subs;
      EncodeSubsKnown(st, p);
    }
  }

  /** Dedup as intended: a second copy of an input, right
      after the first, costs one wrapper record and one index, and sends
      none of its content again. */
  lemma IntendedRepeat(st: EncState, a: Segment, oldsegs: seq<Segment>)
    requires NilFree(a) && Numbered(st, oldsegs)
    ensures var t := IntendedTop(st, a);
      && IntendedTop(t, a) == Reannounce(t, a)
      && IntendedTop(t, a).sent == t.sent + [Wrapper(a)]
      && IntendedTop(t, a).out == t.out + RecordBytes(Wrapper(a), true, t.segidx)
  {
    var subs := RecursiveSubsegments(a);
    RecursiveSubsegmentsPostOrder(a);
    SubsNumbered(st, subs, oldsegs);
    IntendedTopNumbered(st, a, oldsegs);
    var t := IntendedTop(st, a);
    var mid := EncodeSubs(st, subs);
    assert Keeps(mid, t);
    EncodeSubsKnown(t, subs);
  }

  // ---------------------------------------------------------------------
  // The round trip of the intended encoder

  /** Each accepted segment is its input or a one-child wrapper around it. */
  predicate SelfOrWrapper(acc: seq<Segment>, newsegs: seq<Segment>) {
    |acc| == |newsegs| && forall k :: 0 <= k < |acc| ==> acc[k] == newsegs[k] || acc[k] == Wrapper(newsegs[k])
  }

  /** The intended loop keeps the numbering. */
  lemma {:induction false} IntendedAllNumbered(st: EncState, newsegs: seq<Segment>, oldsegs: seq<Segment>)
    requires (forall s <- newsegs :: NilFree(s)) && Numbered(st, oldsegs)
    ensures Numbered(IntendedAll(st, newsegs), oldsegs)
  {
    if newsegs != [] {
      IntendedAllNumbered(st, newsegs[..|newsegs| - 1], oldsegs);
      IntendedTopNumbered(IntendedAll(st, newsegs[..|newsegs| - 1]), newsegs[|newsegs| - 1], oldsegs);
    }
  }

  /** One top-level input of the intended encoder: its subsegment records,
      then one accepted record, for the input or for a wrapper around it. */
  lemma IntendedTopLaid(st: EncState, newseg: Segment, oldsegs: seq<Segment>, f: EncState,
                        marks: seq<bool>, offs: seq<int>, tables: seq<map<Segment, int>>)
    returns (a: Segment, marks': seq<bool>, offs': seq<int>, tables': seq<map<Segment, int>>)
    requires NilFree(newseg) && Narrow(newseg)
    requires Numbered(st, oldsegs) && Tracks(st, f, oldsegs, marks, offs, tables)
    requires IntendedTop(st, newseg).out <= f.out && IntendedTop(st, newseg).sent <= f.sent
    ensures Tracks(IntendedTop(st, newseg), f, oldsegs, marks', offs', tables')
    ensures Select(IntendedTop(st, newseg).sent, marks') == Select(st.sent, marks) + [a]
    ensures a == (if newseg in st.segidx then Wrapper(newseg) else newseg)
  {
    var subs := RecursiveSubsegments(newseg);
    RecursiveSubsegmentsPostOrder(newseg);
    IntendedTopExtends(st, newseg);
    var mid := EncodeSubs(st, subs);
    var t := IntendedTop(st, newseg);
    PrefixTrans(mid.out, t.out, f.out);
    PrefixTrans(mid.sent, t.sent, f.sent);
    var marks1, offs1, tables1 := SubsLaid(st, subs, oldsegs, f, marks, offs, tables);
    SubsNumbered(st, subs, oldsegs);
    SubsPhase(st, newseg, oldsegs);
    if newseg !in mid.segidx {
      FreshLaid(mid, newseg, true, oldsegs, f, marks1, offs1, tables1);
      SelectSnoc(mid.sent, marks1, newseg, true);
      a := newseg;
      marks', offs', tables' := marks1 + [true], offs1 + [|t.out|], tables1 + [mid.segidx[newseg := mid.cur]];
    } else {
      WrapLaid(mid, newseg, oldsegs, f, marks1, offs1, tables1);
      SelectSnoc(mid.sent, marks1, Wrapper(newseg), true);
      a := Wrapper(newseg);
      marks', offs', tables' := marks1 + [true], offs1 + [|t.out|], tables1 + [mid.segidx];
    }
  }

  /** The intended top-level loop: one accepted record per input, in input order. */
  lemma {:induction false} IntendedAllLaid(st: EncState, newsegs: seq<Segment>, oldsegs: seq<Segment>, f: EncState,
                                           marks: seq<bool>, offs: seq<int>, tables: seq<map<Segment, int>>)
    returns (acc: seq<Segment>, marks': seq<bool>, offs': seq<int>, tables': seq<map<Segment, int>>)
    requires (forall s <- newsegs :: NilFree(s)) && (forall s <- newsegs :: Narrow(s))
    requires Numbered(st, oldsegs) && Tracks(st, f, oldsegs, marks, offs, tables)
    requires IntendedAll(st, newsegs).out <= f.out && IntendedAll(st, newsegs).sent <= f.sent
    ensures Tracks(IntendedAll(st, newsegs), f, oldsegs, marks', offs', tables')
    ensures Select(IntendedAll(st, newsegs).sent, marks') == Select(st.sent, marks) + acc
    ensures SelfOrWrapper(acc, newsegs)
  {
    if newsegs == [] {
      acc, marks', offs', tables' := [], marks, offs, tables;
    } else {
      var p := newsegs[..|newsegs| - 1];
      IntendedAllPre(st, newsegs, oldsegs, f);
      var acc1, marks1, offs1, tables1 := IntendedAllLaid(st, p, oldsegs, f, marks, offs, tables);
      acc, marks', offs', tables' := IntendedAllLast(Select(st.sent, marks), IntendedAll(st, p), newsegs, oldsegs, f, IntendedAll(st, newsegs), acc1, marks1, offs1, tables1);
    }
  }

  /** The state after all inputs but the last, with what IntendedAllLaid needs of it. */
  lemma IntendedAllPre(st: EncState, newsegs: seq<Segment>, oldsegs: seq<Segment>, f: EncState)
    requires newsegs != [] && (forall s <- newsegs :: NilFree(s)) && (forall s <- newsegs :: Narrow(s))
    requires Numbered(st, oldsegs)
    requires IntendedAll(st, newsegs).out <= f.out && IntendedAll(st, newsegs).sent <= f.sent
    ensures var p := newsegs[..|newsegs| - 1];
      && (forall s <- p :: NilFree(s)) && (forall s <- p :: Narrow(s))
      && NilFree(newsegs[|newsegs| - 1]) && Narrow(newsegs[|newsegs| - 1])
      && IntendedAll(st, p).out <= f.out && IntendedAll(st, p).sent <= f.sent
      && Numbered(IntendedAll(st, p), oldsegs)
  {
    var p := newsegs[..|newsegs| - 1];
    InitPrefix(newsegs);
    var mid := IntendedAll(st, p);
    IntendedTopExtends(mid, newsegs[|newsegs| - 1]);
    PrefixTrans(mid.out, IntendedAll(st, newsegs).out, f.out);
    PrefixTrans(mid.sent, IntendedAll(st, newsegs).sent, f.sent);
    IntendedAllNumbered(st, p, oldsegs);
  }

  /** The last input of the intended loop, on top of the layout of the others. */
  lemma IntendedAllLast(base: seq<Segment>, mid: EncState, newsegs: seq<Segment>, oldsegs: seq<Segment>, f: EncState, t: EncState,
                        acc1: seq<Segment>, marks1: seq<bool>, offs1: seq<int>, tables1: seq<map<Segment, int>>)
    returns (acc: seq<Segment>, marks': seq<bool>, offs': seq<int>, tables': seq<map<Segment, int>>)
    requires newsegs != [] && NilFree(newsegs[|newsegs| - 1]) && Narrow(newsegs[|newsegs| - 1])
    requires Numbered(mid, oldsegs) && Tracks(mid, f, oldsegs, marks1, offs1, tables1)
    requires Select(mid.sent, marks1) == base + acc1
    requires IntendedTop(mid, newsegs[|newsegs| - 1]) == t && t.out <= f.out && t.sent <= f.sent
    requires SelfOrWrapper(acc1, newsegs[..|newsegs| - 1])
    ensures Tracks(t, f, oldsegs, marks', offs', tables')
    ensures Select(t.sent, marks') == base + acc
    ensures SelfOrWrapper(acc, newsegs)
  {
    var a;
    a, marks', offs', tables' := IntendedTopLaid(mid, newsegs[|newsegs| - 1], oldsegs, f, marks1, offs1, tables1);
    acc := acc1 + [a];
    SelfOrWrapperSnoc(acc1, a, newsegs);
    assert base + acc1 + [a] == base + acc;
  }

  lemma SelfOrWrapperSnoc(acc: seq<Segment>, a: Segment, newsegs: seq<Segment>)
    requires newsegs != [] && SelfOrWrapper(acc, newsegs[..|newsegs| - 1])
    requires a == newsegs[|newsegs| - 1] || a == Wrapper(newsegs[|newsegs| - 1])
    ensures SelfOrWrapper(acc + [a], newsegs)
  {
    forall k | 0 <= k < |newsegs| ensures (acc + [a])[k] == newsegs[k] || (acc + [a])[k] == Wrapper(newsegs[k]) {
      if k < |acc| {
        assert (acc + [a])[k] == acc[k] && newsegs[..|newsegs| - 1][k] == newsegs[k];
      }
    }
  }

  /** The intended encoder never panics, and decoding its bytes gives back
      the sent segments and, for each input, the input or a wrapper around
      it; old segments still make the decoder run off the end, as numsegs
      counts them. */
  lemma IntendedDecodeOfEncode(newsegs: seq<Segment>, oldsegs: seq<Segment>, src: U64, dst: U64)
    requires (forall s <- newsegs :: NilFree(s)) && (forall s <- newsegs :: Narrow(s))
    requires forall s <- oldsegs :: NilFree(s)
    requires |oldsegs| + |IntendedSpec(newsegs, oldsegs, src, dst).sentsegs| < 0x1_0000
    ensures var e := IntendedSpec(newsegs, oldsegs, src, dst);
      var d := DecodeSpec(e.bytes, oldsegs);
      if oldsegs == [] then d.Decoded? && d.newsegs == e.sentsegs && d.src == src && d.dst == dst && SelfOrWrapper(d.accsegs, newsegs)
      else d == Panicked
    ensures forall s <- IntendedSpec(newsegs, oldsegs, src, dst).sentsegs :: NilFree(s)
  {
    var start := Start(oldsegs, src, dst);
    var f := IntendedAll(start, newsegs);
    StartNumbered(oldsegs, src, dst);
    IntendedAllNumbered(start, newsegs, oldsegs);
    IntendedExtends(start, newsegs);
    assert Tracks(start, f, oldsegs, [], [HdrLen], []);
    var acc, marks, offs, tables := IntendedAllLaid(start, newsegs, oldsegs, f, [], [HdrLen], []);
    LaidNilFree(f.out, oldsegs, f.sent, marks, offs, tables);
    LaidStart(f.out, f.cur, f.sent, marks, offs);
    DecodeLaid(f.out, f.cur, oldsegs, f.sent, |f.sent|, marks, offs, tables, DecState(f.out[HdrLen..], Nils(f.cur), [], []));
    PatchedHeader(f.out, f.cur, src, dst);
    FinalDecode(oldsegs, src, dst, f, acc, marks, offs, f.out[..2] + U16BE(Uint16(f.cur)) + f.out[4..]);
  }
}
