/**
 Paths on descriptors laid out by the engine: every address is aligned for its type,
 and different leaves occupy disjoint bytes.
 */
module PathLayout {
  import opened Base
  import opened Arithmetic
  import opened Meta
  import opened Json
  import opened Paths
  import opened PathText
  import opened Built
  import Registry

  // ---------------------------------------------------------------- alignment

  lemma {:induction false} ElementAligned(g: Graph, align: seq<nat>, d: Ref, i: nat, address: nat, e: nat)
    requires Closed(g) && Aligned(g, align) && d < |g| && i < |Fields(g, d)|
    requires NestingOk(g, Fields(g, d)[i])
    requires Divides(align[d], address)
    ensures FieldAligned(g, align, d, i)
    ensures Divides(FieldAlignment(Fields(g, d)[i], align), At(Fields(g, d)[i], address, e))
  {
    assert FieldAligned(g, align, d, i);
    var f := Fields(g, d)[i];
    var a := FieldAlignment(f, align);
    if !f.kind.Struct? {
      MultipleDivides(a, 1);
    }
    DividesTransitive(a, align[d], address);
    ProductDivides(a, f.elementSize, e);
    SumDivides(a, address, f.offset);
    SumDivides(a, address + f.offset, e * f.elementSize);
  }

  ghost predicate TargetAligned(g: Graph, align: seq<nat>, t: Target) {
    && t.d < |g| && t.field < |Fields(g, t.d)|
    && var f := Fields(g, t.d)[t.field];
    && (f.kind.Struct? ==> f.nested.Some? && f.nested.value < |align|)
    && FieldAlignment(f, align) > 0
    && Divides(FieldAlignment(f, align), t.address)
  }

  /** From an aligned instance every path leads to an address aligned for the field's type. */
  lemma {:induction false} FollowedAligned(g: Graph, align: seq<nat>, d: Ref, address: nat, steps: seq<Step>, k: nat)
    requires Closed(g) && Aligned(g, align) && d < |g| && ValidWithin(g, d, k) && StepsOk(steps)
    requires Divides(align[d], address)
    requires Follow(g, d, address, steps, k).Success?
    ensures TargetAligned(g, align, Follow(g, d, address, steps, k).value)
    decreases k
  {
    var i := Registry.FirstField(Fields(g, d), steps[0].name).value;
    var f := Fields(g, d)[i];
    var e := Element(StepIndex(steps[0]));
    assert FieldOk(g, f, g[d].size);
    ElementAligned(g, align, d, i, address, e);
    if |steps| > 1 {
      FollowedAligned(g, align, f.nested.value, At(f, address, e), steps[1..], k - 1);
    }
  }

  lemma {:induction false} ResolvedAligned(g: Graph, align: seq<nat>, d: Ref, address: nat, text: CString, k: nat)
    requires Closed(g) && Aligned(g, align) && d < |g| && ValidWithin(g, d, k)
    requires Divides(align[d], address)
    requires ResolveFrom(g, d, address, text, k).Success?
    ensures TargetAligned(g, align, ResolveFrom(g, d, address, text, k).value)
  {
    var steps := ResolvedIsPrinted(g, d, address, text, k);
    ResolveIsFollow(g, d, address, steps, k);
    FollowedAligned(g, align, d, address, steps, k);
  }

  // ------------------------------------------------------------- disjointness

  /** Which field, and which element of it, at every level. */
  type Trace = seq<(nat, nat)>

  /** The trace leads through structures to an element that is not a structure. */
  ghost predicate IsLeaf(g: Graph, d: Ref, trace: Trace, k: nat)
    requires Closed(g) && d < |g| && ValidWithin(g, d, k)
    decreases k
  {
    && trace != []
    && var (i, e) := trace[0];
    && i < |Fields(g, d)| && e < Fields(g, d)[i].elementCount
    && (if |trace| == 1 then !Fields(g, d)[i].kind.Struct?
        else Fields(g, d)[i].kind.Struct? && IsLeaf(g, Fields(g, d)[i].nested.value, trace[1..], k - 1))
  }

  /** The first byte and the number of bytes of a leaf. */
  ghost function LeafRange(g: Graph, d: Ref, address: nat, trace: Trace, k: nat): (nat, nat)
    requires Closed(g) && d < |g| && ValidWithin(g, d, k) && IsLeaf(g, d, trace, k)
    decreases k
  {
    var (i, e) := trace[0];
    var f := Fields(g, d)[i];
    if |trace| == 1 then (At(f, address, e), ElementExtent(f))
    else LeafRange(g, f.nested.value, At(f, address, e), trace[1..], k - 1)
  }

  /** The first range ends before the second begins, or the other way round. */
  ghost predicate Apart(a: (nat, nat), b: (nat, nat)) {
    a.0 + a.1 <= b.0 || b.0 + b.1 <= a.0
  }

  ghost predicate Within(a: (nat, nat), from: nat, length: nat) {
    from <= a.0 && a.0 + a.1 <= from + length
  }

  lemma {:induction false} LeafInElement(g: Graph, d: Ref, address: nat, trace: Trace, k: nat)
    requires Closed(g) && d < |g| && ValidWithin(g, d, k) && IsLeaf(g, d, trace, k)
    ensures var f := Fields(g, d)[trace[0].0];
      Within(LeafRange(g, d, address, trace, k), At(f, address, trace[0].1), ElementExtent(f))
    ensures Within(LeafRange(g, d, address, trace, k), address, g[d].size)
    decreases k
  {
    var (i, e) := trace[0];
    var f := Fields(g, d)[i];
    FieldInside(g, d, i, address, e, g[d].size);
    if |trace| > 1 {
      LeafInElement(g, f.nested.value, At(f, address, e), trace[1..], k - 1);
    }
  }

  lemma {:induction false} ElementsApart(f: Field, address: nat, e: nat, h: nat)
    requires ShapeOk(f) && e < h < f.elementCount
    ensures At(f, address, e) + ElementExtent(f) <= At(f, address, h)
  {
    assert (e + 1) * f.elementSize == e * f.elementSize + f.elementSize;
    MultiplyOrder(f.elementSize, e + 1, h);
    assert f.elementSize * h == h * f.elementSize && f.elementSize * (e + 1) == (e + 1) * f.elementSize;
  }

  lemma {:induction false} FieldsApart(g: Graph, d: Ref, address: nat, i: nat, j: nat, e: nat, h: nat)
    requires Closed(g) && Ordered(g) && d < |g| && i < j < |Fields(g, d)| && LocallyOk(g, d)
    requires e < Fields(g, d)[i].elementCount && h < Fields(g, d)[j].elementCount
    ensures At(Fields(g, d)[i], address, e) + ElementExtent(Fields(g, d)[i]) <= At(Fields(g, d)[j], address, h)
  {
    assert FieldOk(g, Fields(g, d)[i], g[d].size);
    ElementFits(Fields(g, d)[i], address, e);
    assert Fields(g, d)[i].offset + Extent(Fields(g, d)[i]) <= Fields(g, d)[j].offset;
  }

  /** Different leaves of an ordered descriptor never share a byte. */
  lemma {:induction false} LeavesApart(g: Graph, d: Ref, address: nat, s: Trace, t: Trace, k: nat)
    requires Closed(g) && Ordered(g) && d < |g| && ValidWithin(g, d, k)
    requires IsLeaf(g, d, s, k) && IsLeaf(g, d, t, k) && s != t
    ensures Apart(LeafRange(g, d, address, s, k), LeafRange(g, d, address, t, k))
    decreases k
  {
    hide Ordered, AttributesOk, ByteFormatOf;
    var (i, e) := s[0];
    var (j, h) := t[0];
    LeafInElement(g, d, address, s, k);
    LeafInElement(g, d, address, t, k);
    if i < j {
      FieldsApart(g, d, address, i, j, e, h);
    } else if j < i {
      FieldsApart(g, d, address, j, i, h, e);
    } else if e < h {
      ElementsApart(Fields(g, d)[i], address, e, h);
    } else if h < e {
      ElementsApart(Fields(g, d)[i], address, h, e);
    } else {
      assert s == [s[0]] + s[1..] && t == [t[0]] + t[1..];
      LeavesApart(g, Fields(g, d)[i].nested.value, At(Fields(g, d)[i], address, e), s[1..], t[1..], k - 1);
    }
  }

  /** The fields and elements a path passes through; a missing index means element zero. */
  ghost function TraceOf(g: Graph, d: Ref, address: nat, steps: seq<Step>, k: nat): Trace
    requires Closed(g) && d < |g| && ValidWithin(g, d, k) && StepsOk(steps)
    requires Follow(g, d, address, steps, k).Success?
    decreases k
  {
    var i := Registry.FirstField(Fields(g, d), steps[0].name).value;
    var f := Fields(g, d)[i];
    var e := Element(StepIndex(steps[0]));
    [(i, e)] +
    if |steps| == 1 then [] else TraceOf(g, f.nested.value, At(f, address, e), steps[1..], k - 1)
  }

  /** The path ends at a single leaf: not a structure, and an element if it is an array. */
  ghost predicate AtLeaf(g: Graph, t: Target)
    requires t.d < |g| && t.field < |Fields(g, t.d)|
  {
    var f := Fields(g, t.d)[t.field];
    !f.kind.Struct? && (f.elementCount > 1 ==> t.index.Some?)
  }

  lemma {:induction false} SingleExtent(f: Field)
    ensures f.elementCount == 1 || f.kind.CharArray? ==> Extent(f) == ElementExtent(f)
  {
  }

  lemma {:induction false} FollowedLeaf(g: Graph, d: Ref, address: nat, steps: seq<Step>, k: nat)
    requires Closed(g) && d < |g| && ValidWithin(g, d, k) && StepsOk(steps)
    requires Follow(g, d, address, steps, k).Success?
    ensures var t := Follow(g, d, address, steps, k).value;
      && t.d < |g| && t.field < |Fields(g, t.d)|
      && (AtLeaf(g, t) ==>
          var trace := TraceOf(g, d, address, steps, k);
          IsLeaf(g, d, trace, k) && LeafRange(g, d, address, trace, k) == (t.address, TargetExtent(g, t)))
    decreases k
  {
    var i := Registry.FirstField(Fields(g, d), steps[0].name).value;
    var f := Fields(g, d)[i];
    var e := Element(StepIndex(steps[0]));
    assert FieldOk(g, f, g[d].size);
    var trace := TraceOf(g, d, address, steps, k);
    assert trace[0] == (i, e);
    if |steps| > 1 {
      FollowedLeaf(g, f.nested.value, At(f, address, e), steps[1..], k - 1);
      assert trace[1..] == TraceOf(g, f.nested.value, At(f, address, e), steps[1..], k - 1);
    } else {
      SingleExtent(f);
    }
  }

  /** On a built descriptor, leaf paths that differ in some field or element are disjoint. */
  lemma {:induction false} PathsApart(g: Graph, d: Ref, address: nat, a: seq<Step>, b: seq<Step>, k: nat)
    requires Closed(g) && Ordered(g) && d < |g| && ValidWithin(g, d, k) && StepsOk(a) && StepsOk(b)
    requires Follow(g, d, address, a, k).Success? && Follow(g, d, address, b, k).Success?
    requires TraceOf(g, d, address, a, k) != TraceOf(g, d, address, b, k)
    ensures var s, t := Follow(g, d, address, a, k).value, Follow(g, d, address, b, k).value;
      && s.d < |g| && s.field < |Fields(g, s.d)| && t.d < |g| && t.field < |Fields(g, t.d)|
      && (AtLeaf(g, s) && AtLeaf(g, t) ==>
          Apart((s.address, TargetExtent(g, s)), (t.address, TargetExtent(g, t))))
  {
    FollowedLeaf(g, d, address, a, k);
    FollowedLeaf(g, d, address, b, k);
    var s, t := Follow(g, d, address, a, k).value, Follow(g, d, address, b, k).value;
    if AtLeaf(g, s) && AtLeaf(g, t) {
      LeavesApart(g, d, address, TraceOf(g, d, address, a, k), TraceOf(g, d, address, b, k), k);
    }
  }
}
