/** DecodeSegments with the reference check its error text describes: a
    composition record may refer to an old segment or to a record before
    it, and any other index is rejected. As written, Go only bounds an
    index by len(oldsegs) + len(newsegs), so a record can refer to its own
    slot or a later one, which is still nil when read. */
module StrictDecoder {
  import opened Bytes
  import opened Segments
  import opened Interfaces
  import opened Record
  import opened Encoder
  import opened Decoder
  import opened RoundTrip
  import opened Intended

  // ---------------------------------------------------------------------
  // The corrected decoder

  /** Record i, with references resolved against oldsegs and the records before i only. */
  function StrictDecodeRecord(st: DecState, i: nat, oldsegs: seq<Segment>): (r: Result<DecState>)
    requires i < |st.newsegs|
    ensures r.Ok? ==> |r.value.newsegs| == |st.newsegs|
  {
    if |st.rest| < 4 then Err(Truncated)
    else
      var accepted := IsAccepted(st.rest[0]);
      var seg :- RecordSegment(st.rest, oldsegs, st.newsegs[..i]);
      Ok(DecState(st.rest[RecordLen(st.rest)..], st.newsegs[i := seg],
                  if accepted then st.accsegs + [seg] else st.accsegs, st.marks + [accepted]))
  }

  /** The first k iterations of the corrected record loop. */
  function StrictDecodeSteps(init: DecState, oldsegs: seq<Segment>, k: nat): (r: Result<DecState>)
    requires k <= |init.newsegs|
    ensures r.Ok? ==> |r.value.newsegs| == |init.newsegs|
  {
    if k == 0 then Ok(init)
    else
      var st :- StrictDecodeSteps(init, oldsegs, k - 1);
      StrictDecodeRecord(st, k - 1, oldsegs)
  }

  /** DecodeSegments with the corrected reference check. */
  function StrictDecodeSpec(bytes: seq<Byte>, oldsegs: seq<Segment>): DecodeResult {
    if |bytes| < 20 then Panicked
    else
      var hdrlen := bytes[1];
      var numsegs := ReadU16(bytes, 2);
      var src := ReadU64(bytes, 4);
      var dst := ReadU64(bytes, 12);
      if |bytes| < hdrlen then Panicked
      else
        match StrictDecodeSteps(DecState(bytes[hdrlen..], Nils(numsegs), [], []), oldsegs, numsegs)
        case Ok(st) => Decoded(st.newsegs, st.accsegs, src, dst)
        case Err(Truncated) => Panicked
        case Err(BadReference) => Rejected(src, dst)
  }

  // ---------------------------------------------------------------------
  // One record: resolving against the records before it

  /** A slot index that holds a non-nil segment lies below the first nil slot i. */
  lemma SlotBelow(oldsegs: seq<Segment>, newsegs: seq<Segment>, i: nat, id: nat)
    requires i <= |newsegs| && id < |oldsegs| + |newsegs|
    requires forall j :: i <= j < |newsegs| ==> newsegs[j] == Nil
    requires (oldsegs + newsegs)[id] != Nil
    ensures id < |oldsegs| + i
  {
    if id >= |oldsegs| {
      assert (oldsegs + newsegs)[id] == newsegs[id - |oldsegs|];
    }
  }

  /** References that resolve against a prefix of the slots resolve the same against all of them. */
  lemma ResolveRefsPrefix(rec: seq<Byte>, k: nat, oldsegs: seq<Segment>, newsegs: seq<Segment>, i: nat)
    requires |rec| >= 4 && i <= |newsegs|
    ensures ResolveRefs(rec, k, oldsegs, newsegs[..i]).Ok? ==>
      ResolveRefs(rec, k, oldsegs, newsegs) == ResolveRefs(rec, k, oldsegs, newsegs[..i])
  {
    var a := ResolveRefs(rec, k, oldsegs, newsegs[..i]);
    if a.Ok? {
      var b := ResolveRefs(rec, k, oldsegs, newsegs);
      forall j | 0 <= j < k ensures a.value[j] == b.value[j] {
        var id := RefAt(rec, j);
        if id >= |oldsegs| {
          assert (oldsegs + newsegs[..i])[id] == newsegs[..i][id - |oldsegs|];
        }
      }
    }
  }

  /** References that resolve to non-nil segments resolve below the first nil slot. */
  lemma ResolveRefsBack(rec: seq<Byte>, k: nat, oldsegs: seq<Segment>, newsegs: seq<Segment>, i: nat)
    requires |rec| >= 4 && i <= |newsegs| && forall j :: i <= j < |newsegs| ==> newsegs[j] == Nil
    requires ResolveRefs(rec, k, oldsegs, newsegs).Ok?
    requires forall s <- ResolveRefs(rec, k, oldsegs, newsegs).value :: s != Nil
    ensures ResolveRefs(rec, k, oldsegs, newsegs[..i]) == ResolveRefs(rec, k, oldsegs, newsegs)
  {
    var b := ResolveRefs(rec, k, oldsegs, newsegs).value;
    forall j | 0 <= j < k ensures RefAt(rec, j) < |oldsegs| + i {
      assert b[j] in b;
      SlotBelow(oldsegs, newsegs, i, RefAt(rec, j));
    }
    ResolveRefsPrefix(rec, k, oldsegs, newsegs, i);
  }

  lemma RecordSegmentPrefix(rec: seq<Byte>, oldsegs: seq<Segment>, newsegs: seq<Segment>, i: nat)
    requires |rec| >= 4 && i <= |newsegs|
    ensures RecordSegment(rec, oldsegs, newsegs[..i]).Ok? ==>
      RecordSegment(rec, oldsegs, newsegs) == RecordSegment(rec, oldsegs, newsegs[..i])
  {
    ResolveRefsPrefix(rec, rec[1], oldsegs, newsegs, i);
  }

  lemma RecordSegmentBack(rec: seq<Byte>, oldsegs: seq<Segment>, newsegs: seq<Segment>, i: nat)
    requires |rec| >= 4 && i <= |newsegs| && forall j :: i <= j < |newsegs| ==> newsegs[j] == Nil
    requires RecordSegment(rec, oldsegs, newsegs).Ok? && NilFree(RecordSegment(rec, oldsegs, newsegs).value)
    ensures RecordSegment(rec, oldsegs, newsegs[..i]) == RecordSegment(rec, oldsegs, newsegs)
  {
    if And(rec[0], SegTypeMask) != SegTypeLiteral {
      var subs := ResolveRefs(rec, rec[1], oldsegs, newsegs).value;
      assert forall s <- subs :: NilFree(s);
      ResolveRefsBack(rec, rec[1], oldsegs, newsegs, i);
    }
  }

  /** A record resolved against nil-free segments is nil-free. */
  lemma RecordSegmentNilFree(rec: seq<Byte>, oldsegs: seq<Segment>, prev: seq<Segment>)
    requires |rec| >= 4 && (forall s <- oldsegs :: NilFree(s)) && (forall s <- prev :: NilFree(s))
    ensures RecordSegment(rec, oldsegs, prev).Ok? ==> NilFree(RecordSegment(rec, oldsegs, prev).value)
  {
    if RecordSegment(rec, oldsegs, prev).Ok? && And(rec[0], SegTypeMask) != SegTypeLiteral {
      var subs := ResolveRefs(rec, rec[1], oldsegs, prev).value;
      forall c <- subs ensures NilFree(c) {
        var j :| 0 <= j < |subs| && subs[j] == c;
        assert (oldsegs + prev)[RefAt(rec, j)] in oldsegs + prev;
      }
    }
  }

  // ---------------------------------------------------------------------
  // The record loop

  ghost predicate RefineSoFar(init: DecState, oldsegs: seq<Segment>, k: nat)
    requires k <= |init.newsegs|
  {
    StrictDecodeSteps(init, oldsegs, k).Ok? ==> DecodeSteps(init, oldsegs, k) == StrictDecodeSteps(init, oldsegs, k)
  }

  /** Where the corrected loop succeeds, the loop as written gives the same state. */
  lemma {:induction false} StrictStepsRefine(init: DecState, oldsegs: seq<Segment>, k: nat)
    requires k <= |init.newsegs|
    ensures RefineSoFar(init, oldsegs, k)
  {
    if k > 0 {
      StrictStepsRefine(init, oldsegs, k - 1);
      RefineStep(init, oldsegs, k);
    }
  }

  lemma RefineStep(init: DecState, oldsegs: seq<Segment>, k: nat)
    requires 0 < k <= |init.newsegs| && RefineSoFar(init, oldsegs, k - 1)
    ensures RefineSoFar(init, oldsegs, k)
  {
    var i := k - 1;
    match StrictDecodeSteps(init, oldsegs, i)
    case Err(_) =>
    case Ok(st) =>
      if |st.rest| >= 4 {
        RecordSegmentPrefix(st.rest, oldsegs, st.newsegs, i);
      }
  }

  predicate AllNilFree(segs: seq<Segment>) {
    forall s <- segs :: NilFree(s)
  }

  ghost predicate StrictNilFreeSoFar(init: DecState, oldsegs: seq<Segment>, k: nat)
    requires k <= |init.newsegs|
  {
    StrictDecodeSteps(init, oldsegs, k).Ok? ==>
      forall j :: 0 <= j < k ==> NilFree(StrictDecodeSteps(init, oldsegs, k).value.newsegs[j])
  }

  /** With nil-free old segments, the slots the corrected loop has filled are nil-free. */
  lemma {:induction false} StrictStepsNilFree(init: DecState, oldsegs: seq<Segment>, k: nat)
    requires k <= |init.newsegs| && AllNilFree(oldsegs)
    ensures StrictNilFreeSoFar(init, oldsegs, k)
  {
    if k > 0 {
      StrictStepsNilFree(init, oldsegs, k - 1);
      StrictNilFreeStep(init, oldsegs, k);
    }
  }

  lemma StrictNilFreeStep(init: DecState, oldsegs: seq<Segment>, k: nat)
    requires 0 < k <= |init.newsegs| && AllNilFree(oldsegs)
    requires StrictNilFreeSoFar(init, oldsegs, k - 1)
    ensures StrictNilFreeSoFar(init, oldsegs, k)
  {
    var i := k - 1;
    match StrictDecodeSteps(init, oldsegs, i)
    case Err(_) =>
    case Ok(st) =>
      if |st.rest| >= 4 {
        var prev := st.newsegs[..i];
        assert forall s <- prev :: NilFree(s);
        RecordSegmentNilFree(st.rest, oldsegs, prev);
      }
  }

  ghost predicate AgreeSoFar(init: DecState, oldsegs: seq<Segment>, k: nat)
    requires k <= |init.newsegs|
  {
    && StrictDecodeSteps(init, oldsegs, k) == DecodeSteps(init, oldsegs, k)
    && (DecodeSteps(init, oldsegs, k).Ok? ==>
          forall j :: k <= j < |init.newsegs| ==> DecodeSteps(init, oldsegs, k).value.newsegs[j] == Nil)
  }

  /** Where the loop as written fills k slots from nil ones with nil-free
      segments, the corrected loop gives the same state. */
  ghost predicate CompleteSoFar(init: DecState, oldsegs: seq<Segment>, k: nat)
    requires k <= |init.newsegs|
  {
    (&& DecodeSteps(init, oldsegs, k).Ok?
     && forall j :: 0 <= j < k ==> NilFree(DecodeSteps(init, oldsegs, k).value.newsegs[j]))
    ==> AgreeSoFar(init, oldsegs, k)
  }

  lemma {:induction false} StrictStepsComplete(init: DecState, oldsegs: seq<Segment>, k: nat)
    requires k <= |init.newsegs| && forall j :: 0 <= j < |init.newsegs| ==> init.newsegs[j] == Nil
    ensures CompleteSoFar(init, oldsegs, k)
  {
    if k > 0 {
      StrictStepsComplete(init, oldsegs, k - 1);
      CompleteStep(init, oldsegs, k);
    }
  }

  lemma CompleteStep(init: DecState, oldsegs: seq<Segment>, k: nat)
    requires 0 < k <= |init.newsegs| && CompleteSoFar(init, oldsegs, k - 1)
    ensures CompleteSoFar(init, oldsegs, k)
  {
    var i := k - 1;
    match DecodeSteps(init, oldsegs, i)
    case Err(_) =>
    case Ok(st) =>
      match DecodeRecord(st, i, oldsegs)
      case Err(_) =>
      case Ok(t) =>
        if forall j :: 0 <= j < i + 1 ==> NilFree(t.newsegs[j]) {
          assert forall j :: 0 <= j < i ==> t.newsegs[j] == st.newsegs[j];
          AgreeStep(init, oldsegs, i, st, t);
        }
  }

  lemma AgreeStep(init: DecState, oldsegs: seq<Segment>, i: nat, st: DecState, t: DecState)
    requires i < |init.newsegs| && AgreeSoFar(init, oldsegs, i)
    requires DecodeSteps(init, oldsegs, i) == Ok(st) && DecodeRecord(st, i, oldsegs) == Ok(t)
    requires NilFree(t.newsegs[i])
    ensures AgreeSoFar(init, oldsegs, i + 1)
  {
    RecordSegmentBack(st.rest, oldsegs, st.newsegs, i);
  }

  // ---------------------------------------------------------------------
  // The corrected decoder against the one as written

  /** Whatever the corrected decoder returns, the decoder as written returns
      too, and it holds no nil segment. */
  lemma StrictRefines(bytes: seq<Byte>, oldsegs: seq<Segment>)
    requires forall s <- oldsegs :: NilFree(s)
    ensures StrictDecodeSpec(bytes, oldsegs).Decoded? ==>
      && StrictDecodeSpec(bytes, oldsegs) == DecodeSpec(bytes, oldsegs)
      && forall s <- StrictDecodeSpec(bytes, oldsegs).newsegs :: NilFree(s)
  {
    if |bytes| >= 20 && |bytes| >= bytes[1] {
      var numsegs := ReadU16(bytes, 2);
      var init := DecState(bytes[bytes[1]..], Nils(numsegs), [], []);
      StrictStepsRefine(init, oldsegs, numsegs);
      StrictStepsNilFree(init, oldsegs, numsegs);
    }
  }

  /** Whatever nil-free result the decoder as written returns, the
      corrected decoder returns too. */
  lemma StrictAcceptsNilFree(bytes: seq<Byte>, oldsegs: seq<Segment>)
    ensures DecodeSpec(bytes, oldsegs).Decoded? && (forall s <- DecodeSpec(bytes, oldsegs).newsegs :: NilFree(s)) ==>
      StrictDecodeSpec(bytes, oldsegs) == DecodeSpec(bytes, oldsegs)
  {
    if |bytes| >= 20 && |bytes| >= bytes[1] && DecodeSpec(bytes, oldsegs).Decoded? {
      var numsegs := ReadU16(bytes, 2);
      var init := DecState(bytes[bytes[1]..], Nils(numsegs), [], []);
      var fin := DecodeSteps(init, oldsegs, numsegs).value;
      if forall s <- fin.newsegs :: NilFree(s) {
        assert forall j :: 0 <= j < numsegs ==> fin.newsegs[j] in fin.newsegs;
        StrictStepsComplete(init, oldsegs, numsegs);
        assert AgreeSoFar(init, oldsegs, numsegs);
      }
    }
  }

  /** The message on which the decoder as written returns a nil child is rejected. */
  lemma StrictSelfReferenceRejected()
    ensures StrictDecodeSpec(SelfReferenceHeader() + SelfReferenceRecord(), []) == Rejected(0, 0)
  {
    var b := SelfReferenceHeader() + SelfReferenceRecord();
    SelfReferenceHeaderFields(SelfReferenceRecord());
    assert b[20..] == SelfReferenceRecord();
    assert Nils(1) == [Nil];
    StrictSelfReferenceStep();
  }

  lemma StrictSelfReferenceStep()
    ensures StrictDecodeSteps(DecState(SelfReferenceRecord(), [Nil], [], []), [], 1) == Err(BadReference)
  {
    var rec := SelfReferenceRecord();
    ReadU16Value(rec, 4);
    SelfReferenceFlags();
    ResolveRefsNextErr(rec, 0, [], [], [], BadReference);
    assert [Nil][..0] == [];
  }

  // ---------------------------------------------------------------------
  // The round trip through the corrected decoder

  /** The corrected decoder reads back what EncodeSegments writes, as the decoder as written does. */
  lemma StrictDecodeOfEncode(newsegs: seq<Segment>, src: U64, dst: U64)
    requires (forall s <- newsegs :: NilFree(s)) && (forall s <- newsegs :: Narrow(s))
    requires EncodeSpec(newsegs, [], src, dst).Encoded?
    requires |EncodeSpec(newsegs, [], src, dst).sentsegs| < 0x1_0000
    ensures var e := EncodeSpec(newsegs, [], src, dst);
      StrictDecodeSpec(e.bytes, []) == Decoded(e.sentsegs, newsegs, src, dst)
  {
    DecodeOfEncode(newsegs, [], src, dst);
    StrictAcceptsNilFree(EncodeSpec(newsegs, [], src, dst).bytes, []);
  }

  /** The corrected decoder reads back what the intended encoder writes. */
  lemma StrictDecodeOfIntended(newsegs: seq<Segment>, src: U64, dst: U64)
    requires (forall s <- newsegs :: NilFree(s)) && (forall s <- newsegs :: Narrow(s))
    requires |IntendedSpec(newsegs, [], src, dst).sentsegs| < 0x1_0000
    ensures var e := IntendedSpec(newsegs, [], src, dst);
      var d := StrictDecodeSpec(e.bytes, []);
      d.Decoded? && d.newsegs == e.sentsegs && d.src == src && d.dst == dst && SelfOrWrapper(d.accsegs, newsegs)
  {
    IntendedDecodeOfEncode(newsegs, [], src, dst);
    StrictAcceptsNilFree(IntendedSpec(newsegs, [], src, dst).bytes, []);
  }
}
