/** Path segments and their post-order flattening (RecursiveSubsegments). */
module Segments {
  import opened Bytes

  /** A hop: interface identifier and packed ISD-AS number, both opaque uint64 values. */
  datatype Iface = Iface(id: U64, ia: U64)

  /** A segment is a literal hop list or a composition of child segments.
      Nil is the zero value of Go's Segment interface: the decoder produces
      it when a reference names a record slot it has not filled yet. */
  datatype Segment =
    | Nil
    | Literal(ifaces: seq<Iface>)
    | Composition(segs: seq<Segment>)

  /** A segment the encoder accepts: nil occurs nowhere in it (taking the
      fingerprint of a nil segment panics). */
  predicate NilFree(s: Segment) {
    match s
    case Nil => false
    case Literal(_) => true
    case Composition(segs) => forall c <- segs :: NilFree(c)
  }

  /** Every node has at most 255 entries, so its count fits the uint8 seglen field. */
  predicate Narrow(s: Segment) {
    match s
    case Nil => true
    case Literal(ifaces) => |ifaces| < 0x100
    case Composition(segs) => |segs| < 0x100 && forall c <- segs :: Narrow(c)
  }

  /** The proper subsegments of s in post order: for a composition, each
      child comes right after its own subsegments; a literal has none. */
  function RecursiveSubsegments(s: Segment): (r: seq<Segment>)
    ensures s.Composition? ==> forall c <- s.segs :: c in r
    decreases s, 1
  {
    match s
    case Composition(segs) => Subsegments(segs)
    case _ => []
  }

  /** The post-order flattening of the children segs, in order. */
  function Subsegments(segs: seq<Segment>): (r: seq<Segment>)
    ensures forall c <- segs :: c in r
    decreases segs, 0
  {
    if segs == [] then []
    else
      var c := segs[|segs| - 1];
      Subsegments(segs[..|segs| - 1]) + RecursiveSubsegments(c) + [c]
  }

  /** x's children (if any) all occur in before. */
  ghost predicate ChildrenIn(x: Segment, before: seq<Segment>) {
    x.Composition? ==> forall c <- x.segs :: c in before
  }

  /** Every composition in r comes after all of its children. */
  ghost predicate PostOrdered(r: seq<Segment>) {
    forall i :: 0 <= i < |r| ==> ChildrenIn(r[i], r[..i])
  }

  /** The number of segments a flattening of segs lists: one per child plus its own. */
  function FlatCount(segs: seq<Segment>): nat
    decreases segs
  {
    if segs == [] then 0
    else FlatCount(segs[..|segs| - 1]) + 1 + |RecursiveSubsegments(segs[|segs| - 1])|
  }

  lemma PostOrderedConcat(a: seq<Segment>, b: seq<Segment>)
    requires PostOrdered(a) && PostOrdered(b)
    ensures PostOrdered(a + b)
  {
    var r := a + b;
    forall i | 0 <= i < |r| ensures ChildrenIn(r[i], r[..i]) {
      if i < |a| {
        assert r[i] == a[i] && r[..i] == a[..i];
      } else {
        var j := i - |a|;
        assert r[i] == b[j] && r[..i] == a + b[..j];
      }
    }
  }

  /** The flattening is in post order, contains every child, and
      keeps the nil-freedom and narrowness of its input. */
  lemma {:induction false} RecursiveSubsegmentsPostOrder(s: Segment)
    ensures PostOrdered(RecursiveSubsegments(s))
    ensures ChildrenIn(s, RecursiveSubsegments(s))
    ensures NilFree(s) ==> forall x <- RecursiveSubsegments(s) :: NilFree(x)
    ensures Narrow(s) ==> forall x <- RecursiveSubsegments(s) :: Narrow(x)
    decreases s, 1
  {
    match s
    case Composition(segs) => SubsegmentsPostOrder(segs);
    case _ =>
  }

  lemma {:induction false} SubsegmentsPostOrder(segs: seq<Segment>)
    ensures PostOrdered(Subsegments(segs))
    ensures forall c <- segs :: c in Subsegments(segs)
    ensures (forall c <- segs :: NilFree(c)) ==> forall x <- Subsegments(segs) :: NilFree(x)
    ensures (forall c <- segs :: Narrow(c)) ==> forall x <- Subsegments(segs) :: Narrow(x)
    decreases segs, 0
  {
    if segs != [] {
      var p := segs[..|segs| - 1];
      var c := segs[|segs| - 1];
      var inner := RecursiveSubsegments(c);
      SubsegmentsPostOrder(p);
      RecursiveSubsegmentsPostOrder(c);
      PostOrderedConcat(Subsegments(p), inner);
      var front := Subsegments(p) + inner;
      var r := front + [c];
      assert r == Subsegments(segs);
      assert ChildrenIn(c, front);
      forall i | 0 <= i < |r| ensures ChildrenIn(r[i], r[..i]) {
        if i < |front| {
          assert r[i] == front[i] && r[..i] == front[..i];
        } else {
          assert r[i] == c && r[..i] == front;
        }
      }
    }
  }

  /** The flattening of a composition lists, for each child, the child
      and its own subsegments. */
  lemma {:induction false} RecursiveSubsegmentsLength(segs: seq<Segment>)
    ensures |RecursiveSubsegments(Composition(segs))| == FlatCount(segs)
  {
    if segs != [] {
      RecursiveSubsegmentsLength(segs[..|segs| - 1]);
    }
  }

  /** The number of nodes of a segment tree. */
  function Size(s: Segment): (n: nat)
    ensures n >= 1
    decreases s, 1
  {
    match s
    case Composition(segs) => 1 + SizeAll(segs)
    case _ => 1
  }

  function SizeAll(segs: seq<Segment>): nat
    decreases segs, 0
  {
    if segs == [] then 0 else SizeAll(segs[..|segs| - 1]) + Size(segs[|segs| - 1])
  }

  lemma {:induction false} SizeAllBound(segs: seq<Segment>, i: nat)
    requires i < |segs|
    ensures Size(segs[i]) <= SizeAll(segs)
  {
    if i < |segs| - 1 {
      SizeAllBound(segs[..|segs| - 1], i);
    }
  }

  /** Every subsegment is strictly smaller than the segment it was taken
      from; in particular no segment is among its own subsegments. */
  lemma {:induction false} RecursiveSubsegmentsSmaller(s: Segment)
    ensures forall x <- RecursiveSubsegments(s) :: Size(x) < Size(s)
    ensures s !in RecursiveSubsegments(s)
    decreases s, 1
  {
    match s
    case Composition(segs) => SubsegmentsSmaller(segs);
    case _ =>
  }

  lemma {:induction false} SubsegmentsSmaller(segs: seq<Segment>)
    ensures forall x <- Subsegments(segs) :: Size(x) <= SizeAll(segs)
    decreases segs, 0
  {
    if segs != [] {
      var p := segs[..|segs| - 1];
      var c := segs[|segs| - 1];
      SubsegmentsSmaller(p);
      RecursiveSubsegmentsSmaller(c);
      assert Subsegments(segs) == Subsegments(p) + RecursiveSubsegments(c) + [c];
    }
  }

  /** x occurs strictly inside s: it is a child of s or lies inside one. */
  ghost predicate Below(x: Segment, s: Segment)
    decreases s, 1
  {
    s.Composition? && BelowAny(x, s.segs)
  }

  /** x is one of segs or lies inside one of them. */
  ghost predicate BelowAny(x: Segment, segs: seq<Segment>)
    decreases segs, 0
  {
    exists i :: 0 <= i < |segs| && (x == segs[i] || Below(x, segs[i]))
  }

  /** The flattening lists exactly the segments strictly inside s. */
  lemma {:induction false} RecursiveSubsegmentsBelow(s: Segment, x: Segment)
    ensures x in RecursiveSubsegments(s) <==> Below(x, s)
    decreases s, 1
  {
    match s
    case Composition(segs) => SubsegmentsBelow(segs, x);
    case _ =>
  }

  lemma {:induction false} SubsegmentsBelow(segs: seq<Segment>, x: Segment)
    ensures x in Subsegments(segs) <==> BelowAny(x, segs)
    decreases segs, 0
  {
    if segs != [] {
      var p := segs[..|segs| - 1];
      var c := segs[|segs| - 1];
      SubsegmentsBelow(p, x);
      RecursiveSubsegmentsBelow(c, x);
      assert Subsegments(segs) == Subsegments(p) + RecursiveSubsegments(c) + [c];
      BelowAnySnoc(x, p, c);
      assert segs == p + [c];
    }
  }

  lemma BelowAnySnoc(x: Segment, p: seq<Segment>, c: Segment)
    ensures BelowAny(x, p + [c]) <==> BelowAny(x, p) || x == c || Below(x, c)
  {
    var q := p + [c];
    if BelowAny(x, q) {
      var i :| 0 <= i < |q| && (x == q[i] || Below(x, q[i]));
      if i < |p| {
        assert q[i] == p[i];
      }
    }
    if BelowAny(x, p) {
      var i :| 0 <= i < |p| && (x == p[i] || Below(x, p[i]));
      assert q[i] == p[i];
    }
    if x == c || Below(x, c) {
      assert q[|p|] == c;
    }
  }
}
