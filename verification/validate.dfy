/**
 The recursive descriptor check with its explicit stack of ancestors, and what it
 decides: on any descriptor graph, cyclic ones included, it accepts exactly the
 descriptors from which only well-formed descriptors and no cycle can be reached.
 */
module Validator {
  import opened Base
  import opened Meta
  import Digraph

  ghost predicate StackOk(g: Graph, stack: seq<Ref>) {
    Distinct(stack) && forall i :: 0 <= i < |stack| ==> stack[i] < |g|
  }

  /** The traversal's own verdict, relative to the ancestors already on the stack. */
  ghost predicate Accepts(g: Graph, d: Ref, stack: seq<Ref>)
    requires Closed(g) && d < |g| && StackOk(g, stack)
    decreases |g| - |stack|
  {
    && LocallyOk(g, d)
    && d !in stack
    && (DistinctBound(stack + [d], |g|);
        forall i :: 0 <= i < |Fields(g, d)| && Fields(g, d)[i].kind.Struct? ==>
          Accepts(g, Fields(g, d)[i].nested.value, stack + [d]))
  }

  class Context {
    const graph: Graph
    var stack: seq<Ref>

    constructor (g: Graph)
      ensures graph == g && stack == []
    {
      graph, stack := g, [];
    }

    method Push(d: Ref) returns (ret: Code)
      modifies this
      ensures ret == if d in old(stack) then CorruptDescriptor else Ok
      ensures stack == if d in old(stack) then old(stack) else old(stack) + [d]
    {
      var i := 0;
      while i < |stack|
        invariant 0 <= i <= |stack|
        invariant d !in stack[..i]
        invariant stack == old(stack)
      {
        if stack[i] == d {
          return CorruptDescriptor;
        }
        i := i + 1;
      }
      stack := stack + [d];
      return Ok;
    }

    method CheckAttributes(t: Table<Attribute>) returns (ret: Code)
      ensures ret == Ok || ret == CorruptDescriptor
      ensures ret == Ok <==> AttributesOk(t)
    {
      if t.NullTable? && t.count > 0 {
        return CorruptDescriptor;
      }
      var items := t.Items();
      var i := 0;
      while i < |items|
        invariant 0 <= i <= |items|
        invariant forall k :: 0 <= k < i ==> items[k].key.Some? && items[k].key.value != ""
      {
        if items[i].key.None? || items[i].key.value == "" {
          return CorruptDescriptor;
        }
        i := i + 1;
      }
      i := 0;
      while i < |items|
        invariant 0 <= i <= |items|
        invariant forall k, m :: 0 <= k < i && k < m < |items| ==> items[k].key != items[m].key
      {
        var j := i + 1;
        while j < |items|
          invariant i < j <= |items|
          invariant forall m :: i < m < j ==> items[i].key != items[m].key
        {
          if items[i].key.value == items[j].key.value {
            return CorruptDescriptor;
          }
          j := j + 1;
        }
        i := i + 1;
      }
      return Ok;
    }

    /** The tests on one field that precede the descent into its nested structure. */
    method CheckExtent(f: Field, size: Size) returns (ret: Code)
      ensures ret == Ok || ret == CorruptDescriptor
      ensures ret == Ok <==> Named(f.name) && ShapeOk(f) && Inside(f, size) && (f.kind.CharArray? ==> f.nested.None?)
    {
      if !Named(f.name) || f.kind.OutsideEnum? || f.elementSize == 0 || f.elementCount == 0 {
        return CorruptDescriptor;
      }
      if IsInteger(f.kind) && !SupportedSize(f.elementSize) {
        return CorruptDescriptor;
      }
      var fieldSize: Size;
      if f.kind.CharArray? {
        if f.charBufferSize == 0 || f.elementCount != 1 || f.nested.Some? {
          return CorruptDescriptor;
        }
        fieldSize := f.charBufferSize;
      } else {
        ProductFits(f.elementCount, f.elementSize);
        if f.charBufferSize != 0 || f.elementCount > SIZE_MAX / f.elementSize {
          return CorruptDescriptor;
        }
        fieldSize := f.elementCount * f.elementSize;
      }
      if f.offset > size || fieldSize > size - f.offset {
        return CorruptDescriptor;
      }
      return Ok;
    }

    /** All tests on one field of the descriptor on top of the stack, in the order of the source. */
    method CheckField(f: Field, size: Size) returns (ret: Code)
      requires Closed(graph) && StackOk(graph, stack) && (f.nested.Some? ==> f.nested.value < |graph|)
      modifies this
      ensures stack == old(stack)
      ensures ret == Ok || ret == CorruptDescriptor
      ensures ret == Ok <==> FieldOk(graph, f, size) && (f.kind.Struct? ==> Accepts(graph, f.nested.value, stack))
      decreases |graph| - |stack|, 1
    {
      ret := CheckExtent(f, size);
      if ret != Ok {
        return;
      }
      if f.kind.Struct? {
        if f.nested.None? || f.elementSize != graph[f.nested.value].size {
          return CorruptDescriptor;
        }
        DistinctBound(stack, |graph|);
        ret := CheckDescriptor(f.nested.value);
        if ret != Ok {
          return;
        }
      } else if f.nested.Some? {
        return CorruptDescriptor;
      }
      ret := CheckAttributes(f.attributes);
      if ret != Ok {
        return;
      }
      var format := FieldByteFormat(f);
      if format.Failure? {
        return format.code;
      }
      return Ok;
    }

    method CheckDescriptor(d: Ref) returns (ret: Code)
      requires Closed(graph) && d < |graph| && StackOk(graph, stack)
      modifies this
      ensures stack == old(stack)
      ensures ret == Ok || ret == CorruptDescriptor
      ensures ret == Ok <==> Accepts(graph, d, stack)
      decreases |graph| - |stack|, 0
    {
      hide AttributesOk;
      if !Named(graph[d].name) || graph[d].size == 0 || (graph[d].fields.NullTable? && graph[d].fields.count > 0) {
        return CorruptDescriptor;
      }
      ret := Push(d);
      if ret != Ok {
        return;
      }
      ghost var below := stack;
      DistinctBound(stack, |graph|);
      var fields := Fields(graph, d);
      ret := CheckAttributes(graph[d].attributes);
      var i := 0;
      while ret == Ok && i < |fields|
        invariant 0 <= i <= |fields|
        invariant stack == below
        invariant ret == Ok || ret == CorruptDescriptor
        invariant ret == Ok ==> AttributesOk(graph[d].attributes)
        invariant ret == Ok ==> forall k :: 0 <= k < i ==> FieldOk(graph, fields[k], graph[d].size)
        invariant ret == Ok ==> forall k :: 0 <= k < i && fields[k].kind.Struct? ==>
          Accepts(graph, fields[k].nested.value, below)
        invariant ret != Ok ==> !Accepts(graph, d, old(stack))
        decreases |fields| - i
      {
        ret := CheckField(fields[i], graph[d].size);
        if ret != Ok {
          break;
        }
        i := i + 1;
      }
      stack := stack[..|stack| - 1];
    }
  }

  /** The public entry point for a descriptor that is not registered. */
  method ValidateDescriptor(g: Graph, d: Ref) returns (ret: Code)
    requires Closed(g) && d < |g|
    ensures ret == Ok || ret == CorruptDescriptor
    ensures ret == Ok <==> Valid(g, d)
  {
    var context := new Context(g);
    ret := context.CheckDescriptor(d);
    AcceptsIffValid(g, d);
  }

  // -------------------------------------------------------- what it decides

  lemma {:induction false} AcceptsIsValid(g: Graph, d: Ref, stack: seq<Ref>)
    requires Closed(g) && d < |g| && StackOk(g, stack) && Accepts(g, d, stack)
    ensures |stack| < |g| && ValidWithin(g, d, |g| - |stack| - 1)
    decreases |g| - |stack|
  {
    DistinctBound(stack + [d], |g|);
    forall i | 0 <= i < |Fields(g, d)| && Fields(g, d)[i].kind.Struct?
      ensures |g| - |stack| - 1 > 0 && ValidWithin(g, Fields(g, d)[i].nested.value, |g| - |stack| - 2)
    {
      AcceptsIsValid(g, Fields(g, d)[i].nested.value, stack + [d]);
    }
  }

  lemma {:induction false} ValidIsGrounded(g: Graph, d: Ref, depth: nat)
    requires Closed(g) && d < |g| && ValidWithin(g, d, depth)
    ensures Digraph.Grounded(Nesting(g), d, depth)
    decreases depth
  {
    forall e | e in Nesting(g)[d] ensures depth > 0 && Digraph.Grounded(Nesting(g), e, depth - 1) {
      ValidIsGrounded(g, e, depth - 1);
    }
  }

  /** Reached by the nesting walk `stack`, a valid descriptor is never refused as its own ancestor. */
  lemma {:induction false} ValidIsAccepted(g: Graph, d: Ref, stack: seq<Ref>, depth: nat)
    requires Closed(g) && d < |g| && StackOk(g, stack) && Digraph.Walk(Nesting(g), stack + [d])
    requires ValidWithin(g, d, depth)
    ensures Accepts(g, d, stack)
    decreases depth
  {
    ValidIsGrounded(g, d, depth);
    Digraph.GroundedNotOnCycle(Nesting(g), d, depth);
    if d in stack {
      var i :| 0 <= i < |stack| && stack[i] == d;
      assert Digraph.WalkFromTo(Nesting(g), (stack + [d])[i..], d, d);
      assert false;
    }
    DistinctBound(stack + [d], |g|);
    forall i | 0 <= i < |Fields(g, d)| && Fields(g, d)[i].kind.Struct?
      ensures Accepts(g, Fields(g, d)[i].nested.value, stack + [d])
    {
      var e := Fields(g, d)[i].nested.value;
      assert e in Nesting(g)[d];
      ValidIsAccepted(g, e, stack + [d], depth - 1);
    }
  }

  lemma AcceptsIffValid(g: Graph, d: Ref)
    requires Closed(g) && d < |g|
    ensures Accepts(g, d, []) <==> Valid(g, d)
  {
    if Accepts(g, d, []) {
      AcceptsIsValid(g, d, []);
    }
    if depth: nat :| ValidWithin(g, d, depth) {
      ValidIsAccepted(g, d, [], depth);
    }
  }

  lemma {:induction false} ReachedFromValid(g: Graph, p: seq<Ref>, depth: nat)
    requires Closed(g) && Digraph.Walk(Nesting(g), p) && ValidWithin(g, p[0], depth)
    ensures LocallyOk(g, p[|p| - 1])
    decreases |p|
  {
    if |p| > 1 {
      assert p[1] in Nesting(g)[p[0]];
      assert Digraph.Walk(Nesting(g), p[1..]);
      ReachedFromValid(g, p[1..], depth - 1);
    }
  }

  ghost predicate ReachableOk(g: Graph, d: Ref)
    requires Closed(g) && d < |g|
  {
    forall r: Ref :: Digraph.Reaches(Nesting(g), d, r) ==> r < |g| && LocallyOk(g, r)
  }

  lemma {:induction false} GroundedIsValid(g: Graph, d: Ref, depth: nat)
    requires Closed(g) && d < |g| && Digraph.Grounded(Nesting(g), d, depth)
    requires ReachableOk(g, d)
    ensures ValidWithin(g, d, depth)
    decreases depth
  {
    Digraph.ReachesSelf(Nesting(g), d);
    forall i | 0 <= i < |Fields(g, d)| && Fields(g, d)[i].kind.Struct?
      ensures depth > 0 && ValidWithin(g, Fields(g, d)[i].nested.value, depth - 1)
    {
      var e := Fields(g, d)[i].nested.value;
      assert e in Nesting(g)[d];
      forall r: Ref | Digraph.Reaches(Nesting(g), e, r) ensures r < |g| && LocallyOk(g, r) {
        Digraph.ReachesStep(Nesting(g), d, e, r);
      }
      GroundedIsValid(g, e, depth - 1);
    }
  }

  /** The validator is exact: everything reachable is well formed, and no cycle is reachable. */
  lemma ValidIffReachableOkAndAcyclic(g: Graph, d: Ref)
    requires Closed(g) && d < |g|
    ensures Valid(g, d) <==>
      ReachableOk(g, d) && !Digraph.CycleBelow(Nesting(g), d)
  {
    Digraph.GroundedIffNoCycleBelow(Nesting(g), d);
    if depth: nat :| ValidWithin(g, d, depth) {
      ValidIsGrounded(g, d, depth);
      forall r: Ref | Digraph.Reaches(Nesting(g), d, r) ensures r < |g| && LocallyOk(g, r) {
        var p :| Digraph.WalkFromTo(Nesting(g), p, d, r);
        ReachedFromValid(g, p, depth);
      }
      assert Digraph.Grounded(Nesting(g), d, depth);
    }
    if ReachableOk(g, d) && !Digraph.CycleBelow(Nesting(g), d) {
      var depth: nat :| Digraph.Grounded(Nesting(g), d, depth);
      GroundedIsValid(g, d, depth);
    }
  }
}
