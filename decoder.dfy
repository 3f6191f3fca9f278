/** DecodeSegments: rebuilding segments from records, resolving references
    into the index space oldsegs ++ newsegs. */
module Decoder {
  import opened Bytes
  import opened Segments
  import opened Interfaces
  import opened Record

  /** Why decoding stopped: the buffer ran out (Go panics on a slice bound)
      or a reference was out of range (Go returns an error). */
  datatype Fault = Truncated | BadReference

  datatype Result<T> = Ok(value: T) | Err(fault: Fault) {
    predicate IsFailure() { Err? }
    function PropagateFailure<U>(): Result<U> requires Err? { Err(fault) }
    function Extract(): T requires Ok? { value }
  }

  /** The decoder's loop state: the unread bytes, the preallocated record
      slots, the accepted segments so far, and (for the statement of the
      contract only) the accepted bit of each record read. */
  datatype DecState = DecState(rest: seq<Byte>, newsegs: seq<Segment>, accsegs: seq<Segment>, marks: seq<bool>)

  /** Go panics, returns (nil, nil, srcIA, dstIA, err), or returns the segments. */
  datatype DecodeResult =
    | Panicked
    | Rejected(src: U64, dst: U64)
    | Decoded(newsegs: seq<Segment>, accsegs: seq<Segment>, src: U64, dst: U64)

  /** make([]Segment, n): n nil slots. */
  function Nils(n: nat): (s: seq<Segment>)
    ensures |s| == n && forall i :: 0 <= i < n ==> s[i] == Nil
  {
    seq(n, _ => Nil)
  }

  /** Whether a flags byte has the accepted bit set. */
  function IsAccepted(flags: Byte): bool {
    SegAcceptedTrue == And(flags, SegAcceptedMask)
  }

  /** The reference stored in slot j of the record at the front of rec. */
  function RefAt(rec: seq<Byte>, j: nat): U16
    requires 4 + 2 * j + 2 <= |rec|
  {
    ReadU16(rec, 4 + 2 * j)
  }

  /** A reference into oldsegs ++ newsegs; slots not yet decoded are still nil. */
  function Resolve(id: U16, oldsegs: seq<Segment>, newsegs: seq<Segment>): (r: Result<Segment>)
    ensures r.Ok? <==> id < |oldsegs| + |newsegs|
    ensures r.Ok? ==> r.value == (oldsegs + newsegs)[id]
  {
    if id < |oldsegs| then Ok(oldsegs[id])
    else if id < |oldsegs| + |newsegs| then Ok(newsegs[id - |oldsegs|])
    else Err(BadReference)
  }

  /** The first k iterations of the reference loop of a composition record. */
  function ResolveRefs(rec: seq<Byte>, k: nat, oldsegs: seq<Segment>, newsegs: seq<Segment>): (r: Result<seq<Segment>>)
    requires |rec| >= 4
    ensures r.Ok? <==> 4 + 2 * k <= |rec| && forall j :: 0 <= j < k ==> RefAt(rec, j) < |oldsegs| + |newsegs|
    ensures r.Ok? ==> |r.value| == k && forall j :: 0 <= j < k ==> r.value[j] == (oldsegs + newsegs)[RefAt(rec, j)]
  {
    if k == 0 then Ok([])
    else
      var subs :- ResolveRefs(rec, k - 1, oldsegs, newsegs);
      if |rec| < 4 + 2 * (k - 1) + 2 then Err(Truncated)
      else
        var s :- Resolve(RefAt(rec, k - 1), oldsegs, newsegs);
        Ok(subs + [s])
  }

  /** The length of a record with the given header bytes, options included. */
  function RecordLen(rec: seq<Byte>): nat
    requires |rec| >= 4
  {
    var seglen := rec[1];
    var optlen := ReadU16(rec, 2);
    if And(rec[0], SegTypeMask) == SegTypeLiteral then 4 + seglen * 16 + optlen else 4 + seglen * 2 + optlen
  }

  /** The segment of the record at the front of rec. */
  function RecordSegment(rec: seq<Byte>, oldsegs: seq<Segment>, newsegs: seq<Segment>): (r: Result<Segment>)
    requires |rec| >= 4
    ensures r.Ok? ==> RecordLen(rec) <= |rec|
  {
    var seglen := rec[1];
    if And(rec[0], SegTypeMask) == SegTypeLiteral then
      if |rec| < RecordLen(rec) then Err(Truncated)
      else Ok(Literal(IfacesOf(rec[4..], seglen)))
    else  // the masked type bit is SegTypeComposition
      var subs :- ResolveRefs(rec, seglen, oldsegs, newsegs);
      if |rec| < RecordLen(rec) then Err(Truncated)
      else Ok(Composition(subs))
  }

  /** Iteration i of DecodeSegments' record loop. */
  function DecodeRecord(st: DecState, i: nat, oldsegs: seq<Segment>): (r: Result<DecState>)
    requires i < |st.newsegs|
    ensures |st.rest| < 4 ==> r == Err(Truncated)
    ensures r.Ok? ==>
      && |st.rest| >= 4 && RecordLen(st.rest) <= |st.rest|
      && r.value.rest == st.rest[RecordLen(st.rest)..]
      && |r.value.newsegs| == |st.newsegs|
      && r.value.newsegs == st.newsegs[i := r.value.newsegs[i]]
      && r.value.marks == st.marks + [IsAccepted(st.rest[0])]
      && r.value.accsegs == st.accsegs + (if IsAccepted(st.rest[0]) then [r.value.newsegs[i]] else [])
  {
    if |st.rest| < 4 then Err(Truncated)
    else
      var accepted := IsAccepted(st.rest[0]);
      var seg :- RecordSegment(st.rest, oldsegs, st.newsegs);
      Ok(DecState(st.rest[RecordLen(st.rest)..], st.newsegs[i := seg],
                  if accepted then st.accsegs + [seg] else st.accsegs, st.marks + [accepted]))
  }

  /** The first k iterations of the record loop. */
  function DecodeSteps(init: DecState, oldsegs: seq<Segment>, k: nat): (r: Result<DecState>)
    requires k <= |init.newsegs|
    ensures r.Ok? ==> |r.value.newsegs| == |init.newsegs| && |r.value.marks| == |init.marks| + k
  {
    if k == 0 then Ok(init)
    else
      var st :- DecodeSteps(init, oldsegs, k - 1);
      DecodeRecord(st, k - 1, oldsegs)
  }

  /** The segments whose mark is set, in order: what the record loop
      collects as accsegs. */
  function Select(segs: seq<Segment>, marks: seq<bool>): (r: seq<Segment>)
    requires |segs| == |marks|
    ensures |r| <= |segs| && forall x <- r :: x in segs
  {
    if segs == [] then []
    else
      var n := |segs|;
      var p := Select(segs[..n - 1], marks[..n - 1]);
      assert forall x <- p :: x in segs by {
        forall x <- p ensures x in segs {
          var i :| 0 <= i < n - 1 && segs[..n - 1][i] == x;
          assert segs[i] == x;
        }
      }
      p + (if marks[n - 1] then [segs[n - 1]] else [])
  }

  lemma SelectSnoc(segs: seq<Segment>, marks: seq<bool>, x: Segment, m: bool)
    requires |segs| == |marks|
    ensures Select(segs + [x], marks + [m]) == Select(segs, marks) + (if m then [x] else [])
  {
    assert (segs + [x])[..|segs|] == segs;
    assert (marks + [m])[..|marks|] == marks;
  }

  /** What DecodeSegments computes. */
  function DecodeSpec(bytes: seq<Byte>, oldsegs: seq<Segment>): DecodeResult {
    if |bytes| < 20 then Panicked
    else
      var hdrlen := bytes[1];
      var numsegs := ReadU16(bytes, 2);
      var src := ReadU64(bytes, 4);
      var dst := ReadU64(bytes, 12);
      if |bytes| < hdrlen then Panicked
      else
        match DecodeSteps(DecState(bytes[hdrlen..], Nils(numsegs), [], []), oldsegs, numsegs)
        case Ok(st) => Decoded(st.newsegs, st.accsegs, src, dst)
        case Err(Truncated) => Panicked
        case Err(BadReference) => Rejected(src, dst)
  }

  // ---------------------------------------------------------------------
  // The method

  /** Go's DecodeSegments. */
  method DecodeSegments(bytes: seq<Byte>, oldsegs: seq<Segment>) returns (r: DecodeResult)
    ensures r == DecodeSpec(bytes, oldsegs)
  {
    if |bytes| < 20 {
      return Panicked;
    }
    var hdrlen := bytes[1];
    var numsegs := ReadU16(bytes, 2);
    var srcIA := ReadU64(bytes, 4);
    var dstIA := ReadU64(bytes, 12);
    var newsegs := new Segment[numsegs](_ => Nil);
    var accsegs: seq<Segment> := [];
    ghost var marks: seq<bool> := [];
    if |bytes| < hdrlen {
      return Panicked;
    }
    var rest := bytes[hdrlen..];
    ghost var init := DecState(rest, Nils(numsegs), [], []);
    assert newsegs[..] == Nils(numsegs);
    for i := 0 to numsegs
      invariant DecodeSteps(init, oldsegs, i) == Ok(DecState(rest, newsegs[..], accsegs, marks))
    {
      ghost var before := DecState(rest, newsegs[..], accsegs, marks);
      var cur := rest;
      var seg;
      seg, rest := DecodeOne(cur, oldsegs, newsegs);
      if seg.Err? {
        StepErr(init, oldsegs, i, before, seg.fault);
        DecodeStepsStaysErr(init, oldsegs, i + 1, numsegs);
        return if seg.fault == Truncated then Panicked else Rejected(srcIA, dstIA);
      }
      newsegs[i] := seg.value;
      var accepted := IsAccepted(cur[0]);
      if accepted {
        accsegs := accsegs + [newsegs[i]];
      }
      marks := marks + [accepted];
      StepOk(init, oldsegs, i, before, seg.value, DecState(rest, newsegs[..], accsegs, marks));
    }
    r := Decoded(newsegs[..], accsegs, srcIA, dstIA);
  }

  /** One record of DecodeSegments' loop: the cursor moves past the record
      and its options. */
  method DecodeOne(bytes: seq<Byte>, oldsegs: seq<Segment>, newsegs: array<Segment>)
    returns (seg: Result<Segment>, rest: seq<Byte>)
    ensures |bytes| < 4 ==> seg == Err(Truncated)
    ensures |bytes| >= 4 ==> seg == RecordSegment(bytes, oldsegs, newsegs[..])
    ensures seg.Ok? ==> rest == bytes[RecordLen(bytes)..]
  {
    rest := bytes;
    if |bytes| < 4 {
      return Err(Truncated), rest;
    }
    var flags := bytes[0];
    var segtype := And(flags, SegTypeMask);
    var seglen: nat := bytes[1];
    var optlen: nat := ReadU16(bytes, 2);
    if segtype == SegTypeLiteral {
      if |bytes| < 4 + seglen * 16 + optlen {
        return Err(Truncated), rest;
      }
      var ifs := DecodeInterfaces(bytes[4..], seglen);
      seg := Ok(Literal(ifs));
      rest := bytes[4 + seglen * 16 + optlen..];
    } else {
      var subs := DecodeRefs(bytes, seglen, oldsegs, newsegs);
      if subs.Err? {
        return Err(subs.fault), rest;
      }
      if |bytes| < 4 + seglen * 2 + optlen {
        return Err(Truncated), rest;
      }
      seg := Ok(Composition(subs.value));
      rest := bytes[4 + seglen * 2 + optlen..];
    }
  }

  /** The reference loop of a composition record. */
  method DecodeRefs(bytes: seq<Byte>, seglen: nat, oldsegs: seq<Segment>, newsegs: array<Segment>)
    returns (r: Result<seq<Segment>>)
    requires |bytes| >= 4
    ensures r == ResolveRefs(bytes, seglen, oldsegs, newsegs[..])
  {
    var subsegs := new Segment[seglen](_ => Nil);
    for j := 0 to seglen
      invariant ResolveRefs(bytes, j, oldsegs, newsegs[..]) == Ok(subsegs[..j])
    {
      if |bytes| < 4 + j * 2 + 2 {
        ResolveRefsNextErr(bytes, j, oldsegs, newsegs[..], subsegs[..j], Truncated);
        ResolveRefsStaysErr(bytes, j + 1, seglen, oldsegs, newsegs[..]);
        return Err(Truncated);
      }
      var id := ReadU16(bytes, 4 + j * 2);
      var s: Segment;
      if id < |oldsegs| {
        s := oldsegs[id];
      } else if id < |oldsegs| + newsegs.Length {
        s := newsegs[id - |oldsegs|];
      } else {
        ResolveRefsNextErr(bytes, j, oldsegs, newsegs[..], subsegs[..j], BadReference);
        ResolveRefsStaysErr(bytes, j + 1, seglen, oldsegs, newsegs[..]);
        return Err(BadReference);
      }
      ghost var prev := subsegs[..j];
      subsegs[j] := s;
      ResolveRefsStep(bytes, j, oldsegs, newsegs[..], prev, s);
      assert subsegs[..j + 1] == prev + [s];
    }
    assert subsegs[..] == subsegs[..seglen];
    r := Ok(subsegs[..]);
  }

  lemma ResolveRefsStep(rec: seq<Byte>, j: nat, oldsegs: seq<Segment>, newsegs: seq<Segment>, subs: seq<Segment>, s: Segment)
    requires 4 + 2 * j + 2 <= |rec|
    requires ResolveRefs(rec, j, oldsegs, newsegs) == Ok(subs)
    requires Resolve(RefAt(rec, j), oldsegs, newsegs) == Ok(s)
    ensures ResolveRefs(rec, j + 1, oldsegs, newsegs) == Ok(subs + [s])
  {
  }

  /** A record that decodes extends the record loop by one iteration. */
  lemma StepOk(init: DecState, oldsegs: seq<Segment>, i: nat, before: DecState, seg: Segment, after: DecState)
    requires i < |init.newsegs| && DecodeSteps(init, oldsegs, i) == Ok(before)
    requires |before.rest| >= 4 && RecordSegment(before.rest, oldsegs, before.newsegs) == Ok(seg)
    requires after == DecState(before.rest[RecordLen(before.rest)..], before.newsegs[i := seg],
                               if IsAccepted(before.rest[0]) then before.accsegs + [seg] else before.accsegs,
                               before.marks + [IsAccepted(before.rest[0])])
    ensures DecodeSteps(init, oldsegs, i + 1) == Ok(after)
  {
  }

  /** A record that fails to decode ends the record loop with its fault. */
  lemma StepErr(init: DecState, oldsegs: seq<Segment>, i: nat, before: DecState, f: Fault)
    requires i < |init.newsegs| && DecodeSteps(init, oldsegs, i) == Ok(before)
    requires if |before.rest| < 4 then f == Truncated else RecordSegment(before.rest, oldsegs, before.newsegs) == Err(f)
    ensures DecodeSteps(init, oldsegs, i + 1) == Err(f)
  {
  }

  /** A reference that is cut off or out of range ends the reference loop with its fault. */
  lemma ResolveRefsNextErr(rec: seq<Byte>, j: nat, oldsegs: seq<Segment>, newsegs: seq<Segment>, subs: seq<Segment>, f: Fault)
    requires |rec| >= 4 && ResolveRefs(rec, j, oldsegs, newsegs) == Ok(subs)
    requires if |rec| < 4 + 2 * j + 2 then f == Truncated else Resolve(RefAt(rec, j), oldsegs, newsegs) == Err(f)
    ensures ResolveRefs(rec, j + 1, oldsegs, newsegs) == Err(f)
  {
  }

  /** The first failure of the reference loop is its result. */
  lemma {:induction false} ResolveRefsStaysErr(rec: seq<Byte>, k: nat, n: nat, oldsegs: seq<Segment>, newsegs: seq<Segment>)
    requires 0 < k <= n && |rec| >= 4
    requires ResolveRefs(rec, k, oldsegs, newsegs).Err?
    ensures ResolveRefs(rec, n, oldsegs, newsegs) == ResolveRefs(rec, k, oldsegs, newsegs)
    decreases n - k
  {
    if k < n {
      ResolveRefsStaysErr(rec, k + 1, n, oldsegs, newsegs);
    }
  }

  /** The first failure of the record loop is its result. */
  lemma {:induction false} DecodeStepsStaysErr(init: DecState, oldsegs: seq<Segment>, k: nat, n: nat)
    requires 0 < k <= n <= |init.newsegs|
    requires DecodeSteps(init, oldsegs, k).Err?
    ensures DecodeSteps(init, oldsegs, n) == DecodeSteps(init, oldsegs, k)
    decreases n - k
  {
    if k < n {
      DecodeStepsStaysErr(init, oldsegs, k + 1, n);
    }
  }

  // ---------------------------------------------------------------------
  // Properties of the decoder

  /** The outcome is decided by the header: fewer than 20 bytes or a hdrlen
      past the end panic; srcIA and dstIA are those of bytes 4..20, also on
      an error; numsegs slots are returned, and accsegs lists, in record
      order, exactly the slots whose record had the accepted bit set. */
  lemma DecodeShape(bytes: seq<Byte>, oldsegs: seq<Segment>)
    ensures |bytes| < 20 || |bytes| < bytes[1] ==> DecodeSpec(bytes, oldsegs) == Panicked
    ensures var r := DecodeSpec(bytes, oldsegs);
      r.Rejected? ==> |bytes| >= 20 && r.src == ReadU64(bytes, 4) && r.dst == ReadU64(bytes, 12)
    ensures var r := DecodeSpec(bytes, oldsegs);
      r.Decoded? ==>
        && |bytes| >= 20 && |r.newsegs| == ReadU16(bytes, 2)
        && r.src == ReadU64(bytes, 4) && r.dst == ReadU64(bytes, 12)
        && exists marks :: |marks| == |r.newsegs| && r.accsegs == Select(r.newsegs, marks)
  {
    var r := DecodeSpec(bytes, oldsegs);
    if r.Decoded? {
      var numsegs := ReadU16(bytes, 2);
      var init := DecState(bytes[bytes[1]..], Nils(numsegs), [], []);
      DecodeStepsAccepted(init, oldsegs, numsegs);
      var st := DecodeSteps(init, oldsegs, numsegs).value;
      assert st.newsegs[..numsegs] == st.newsegs;
      assert |st.marks| == |r.newsegs| && r.accsegs == Select(r.newsegs, st.marks);
    }
  }

  /** After k records, accsegs is the selection of the k slots filled so far by their accepted bits. */
  lemma {:induction false} DecodeStepsAccepted(init: DecState, oldsegs: seq<Segment>, k: nat)
    requires init.accsegs == [] && init.marks == [] && k <= |init.newsegs|
    ensures AcceptedSoFar(init, oldsegs, k)
  {
    if k > 0 {
      DecodeStepsAccepted(init, oldsegs, k - 1);
      AcceptedSoFarStep(init, oldsegs, k - 1);
    }
  }

  ghost predicate AcceptedSoFar(init: DecState, oldsegs: seq<Segment>, k: nat)
    requires k <= |init.newsegs|
  {
    DecodeSteps(init, oldsegs, k).Ok? ==>
      var st := DecodeSteps(init, oldsegs, k).value;
      |st.marks| == k && st.accsegs == Select(st.newsegs[..k], st.marks)
  }

  lemma AcceptedSoFarStep(init: DecState, oldsegs: seq<Segment>, i: nat)
    requires init.accsegs == [] && init.marks == [] && i < |init.newsegs|
    requires AcceptedSoFar(init, oldsegs, i)
    ensures AcceptedSoFar(init, oldsegs, i + 1)
  {
    match DecodeSteps(init, oldsegs, i)
    case Err(_) =>
    case Ok(st) =>
      match DecodeRecord(st, i, oldsegs)
      case Err(_) =>
      case Ok(t) =>
        AcceptedStep(st, t, i, IsAccepted(st.rest[0]));
  }

  lemma AcceptedStep(st: DecState, t: DecState, i: nat, m: bool)
    requires i < |st.newsegs| == |t.newsegs| && |st.marks| == i
    requires st.accsegs == Select(st.newsegs[..i], st.marks)
    requires t.newsegs == st.newsegs[i := t.newsegs[i]]
    requires t.marks == st.marks + [m]
    requires t.accsegs == st.accsegs + (if m then [t.newsegs[i]] else [])
    ensures t.accsegs == Select(t.newsegs[..i + 1], t.marks)
  {
    assert t.newsegs[..i + 1] == st.newsegs[..i] + [t.newsegs[i]];
    SelectSnoc(st.newsegs[..i], st.marks, t.newsegs[i], m);
  }

  /** A composition record may reference its own, still empty, slot: Go
      resolves index len(oldsegs) + i to newsegs[i] before filling it, so the
      message below decodes to a composition holding a nil segment, where
      the error text of the reference check speaks of rejecting it. */
  lemma SelfReferenceDecodes()
    ensures DecodeSpec(SelfReferenceHeader() + SelfReferenceRecord(), [])
         == Decoded([Composition([Nil])], [Composition([Nil])], 0, 0)
  {
    var b := SelfReferenceHeader() + SelfReferenceRecord();
    SelfReferenceHeaderFields(SelfReferenceRecord());
    assert b[20..] == SelfReferenceRecord();
    assert Nils(1) == [Nil];
    SelfReferenceStep();
  }

  /** hdrlen 20, numsegs 1, srcIA and dstIA 0. */
  function SelfReferenceHeader(): (h: seq<Byte>)
    ensures |h| == 20
  {
    [0, 20, 0, 1] + seq(16, _ => 0)
  }

  /** An accepted composition record with one reference, to index 0. */
  function SelfReferenceRecord(): (r: seq<Byte>)
    ensures |r| == 6
  {
    [SegTypeComposition + SegAcceptedTrue, 1, 0, 0, 0, 0]
  }

  lemma SelfReferenceHeaderFields(tail: seq<Byte>)
    ensures var b := SelfReferenceHeader() + tail;
      b[1] == 20 && ReadU16(b, 2) == 1 && ReadU64(b, 4) == 0 && ReadU64(b, 12) == 0
  {
    var b := SelfReferenceHeader() + tail;
    ReadU16Value(b, 2);
    ReadU64Zero(b, 4);
    ReadU64Zero(b, 12);
  }

  lemma SelfReferenceStep()
    ensures DecodeSteps(DecState(SelfReferenceRecord(), [Nil], [], []), [], 1)
         == Ok(DecState([], [Composition([Nil])], [Composition([Nil])], [true]))
  {
    SelfReferenceSegment();
    SelfReferenceFlags();
    OneRecordStep(SelfReferenceRecord(), Composition([Nil]));
  }

  /** A lone accepted record that fills the only slot of an empty message. */
  lemma OneRecordStep(rec: seq<Byte>, seg: Segment)
    requires |rec| >= 4 && RecordLen(rec) == |rec| && IsAccepted(rec[0])
    requires RecordSegment(rec, [], [Nil]) == Ok(seg)
    ensures DecodeSteps(DecState(rec, [Nil], [], []), [], 1) == Ok(DecState([], [seg], [seg], [true]))
  {
    var init := DecState(rec, [Nil], [], []);
    StepOk(init, [], 0, init, seg, DecState(rec[|rec|..], [Nil][0 := seg], [] + [seg], [] + [true]));
    assert DecState(rec[|rec|..], [Nil][0 := seg], [] + [seg], [] + [true]) == DecState([], [seg], [seg], [true]);
  }

  /** The flags byte 3 is a composition with the accepted bit set. */
  lemma SelfReferenceFlags()
    ensures And(SelfReferenceRecord()[0], SegTypeMask) == SegTypeComposition
    ensures IsAccepted(SelfReferenceRecord()[0])
  {
    assert SelfReferenceRecord()[0] == 3;
    assert (3 as bv8) & (1 as bv8) == 1;
    assert (3 as bv8) & (2 as bv8) == 2;
  }

  lemma SelfReferenceSegment()
    ensures RecordLen(SelfReferenceRecord()) == 6
    ensures RecordSegment(SelfReferenceRecord(), [], [Nil]) == Ok(Composition([Nil]))
  {
    var rec := SelfReferenceRecord();
    ReadU16Value(rec, 2);
    ReadU16Value(rec, 4);
    SelfReferenceFlags();
    ResolveRefsStep(rec, 0, [], [Nil], [], Nil);
    assert [] + [Nil] == [Nil];
  }
}
