/**
 The language of paths: a text resolves exactly when it is a dotted list of steps, and
 then to what walking the steps gives.
 */
module PathText {
  import opened Base
  import opened Meta
  import opened Json
  import opened Paths
  import Registry

  /** A field name and, if there was an index, the digits between its brackets. */
  datatype Step = Step(name: CString, digits: Option<CString>)

  ghost predicate Identifier(name: CString) {
    name != [] && IdentStart(name[0]) && forall i :: 0 <= i < |name| ==> IdentPart(name[i])
  }

  ghost predicate StepOk(s: Step) {
    Identifier(s.name) && (s.digits.Some? ==> s.digits.value != [] && AllDigits(s.digits.value))
  }

  ghost predicate StepsOk(steps: seq<Step>) {
    steps != [] && forall i :: 0 <= i < |steps| ==> StepOk(steps[i])
  }

  function IndexText(digits: Option<CString>): CString {
    if digits.None? then [] else ['['] + digits.value + [']']
  }


  /** The text of a list of steps. */
  function Print(steps: seq<Step>): CString
    requires steps != []
  {
    steps[0].name + (IndexText(steps[0].digits) + if |steps| == 1 then [] else ['.'] + Print(steps[1..]))
  }

  /** The index a step asks for. */
  ghost function StepIndex(s: Step): Option<nat>
    requires StepOk(s)
  {
    if s.digits.None? then None else Some(DecimalValue(s.digits.value))
  }

  /** Following the steps through the descriptors, with the errors of each. */
  ghost function Follow(g: Graph, d: Ref, address: nat, steps: seq<Step>, k: nat): Outcome<Target>
    requires Closed(g) && d < |g| && ValidWithin(g, d, k) && StepsOk(steps)
    decreases k
  {
    match Registry.FirstField(Fields(g, d), steps[0].name)
    case None => Failure(NotFound)
    case Some(i) =>
      var f := Fields(g, d)[i];
      var index := StepIndex(steps[0]);
      if index.Some? && (index.value > SIZE_MAX || f.kind.CharArray? || index.value >= f.elementCount) then
        Failure(OutOfRange)
      else if |steps| == 1 then Success(Target(d, i, index, At(f, address, Element(index))))
      else if !f.kind.Struct? || (f.elementCount > 1 && index.None?) then Failure(InvalidArgument)
      else Follow(g, f.nested.value, At(f, address, Element(index)), steps[1..], k - 1)
  }

  lemma {:induction false} NameEnds(name: CString, tail: CString)
    requires Identifier(name) && (tail == [] || !IdentPart(tail[0]))
    ensures IdentLength(name + tail) == |name|
  {
    var text := name + tail;
    assert forall i :: 0 <= i < |name| ==> text[i] == name[i];
    assert tail != [] ==> text[|name|] == tail[0];
  }

  lemma {:induction false} DigitsEnd(digits: CString, tail: CString)
    requires AllDigits(digits) && (tail == [] || !IsDigit(tail[0]))
    ensures DigitLength(digits + tail) == |digits|
  {
    var text := digits + tail;
    assert forall i :: 0 <= i < |digits| ==> text[i] == digits[i];
    assert tail != [] ==> text[|digits|] == tail[0];
  }

  lemma {:induction false} IndexReadsBack(digits: CString, tail: CString)
    requires digits != [] && AllDigits(digits)
    ensures IndexOf(['['] + digits + [']'] + tail) ==
      if DecimalValue(digits) > SIZE_MAX then Refused(OutOfRange) else Index(DecimalValue(digits), tail)
  {
    var text := ['['] + digits + [']'] + tail;
    assert text[1..] == digits + ([']'] + tail);
    DigitsEnd(digits, [']'] + tail);
    assert text[1..][..|digits|] == digits;
    assert text[|digits| + 2..] == tail;
  }

  /** What follows the first step in the text of a path. */
  function Tail(steps: seq<Step>): CString
    requires steps != []
  {
    if |steps| == 1 then [] else ['.'] + Print(steps[1..])
  }

  /** What index parsing must find after the name of a step. */
  ghost function IndexOfStep(s: Step, tail: CString): IndexPart
    requires StepOk(s)
  {
    if s.digits.None? then Absent
    else if DecimalValue(s.digits.value) > SIZE_MAX then Refused(OutOfRange)
    else Index(DecimalValue(s.digits.value), tail)
  }

  lemma {:induction false} PrintedHead(steps: seq<Step>)
    requires StepsOk(steps)
    ensures var text, s := Print(steps), steps[0];
      && text != [] && IdentStart(text[0]) && IdentLength(text) == |s.name| && text[..|s.name|] == s.name
      && StepOk(s) && IndexOf(text[|s.name|..]) == IndexOfStep(s, Tail(steps))
      && (s.digits.None? ==> text[|s.name|..] == Tail(steps))
  {
    var s, tail := steps[0], Tail(steps);
    var rest := IndexText(s.digits) + tail;
    assert StepOk(s) && Print(steps) == s.name + rest;
    NameEnds(s.name, rest);
    assert Print(steps)[|s.name|..] == rest;
    if s.digits.Some? {
      IndexReadsBack(s.digits.value, tail);
    } else {
      assert rest == tail;
    }
  }

  /** What continues after the first step is the path of the others. */
  lemma {:induction false} ContinueIsFollow(g: Graph, d: Ref, i: nat, index: Option<nat>, address: nat, steps: seq<Step>, k: nat)
    requires Closed(g) && d < |g| && ValidWithin(g, d, k) && i < |Fields(g, d)| && StepsOk(steps)
    ensures ContinueFrom(g, d, i, index, address, Tail(steps), k) ==
      var f := Fields(g, d)[i];
      if |steps| == 1 then Success(Target(d, i, index, address))
      else if !f.kind.Struct? || (f.elementCount > 1 && index.None?) then Failure(InvalidArgument)
      else Follow(g, f.nested.value, address, steps[1..], k - 1)
    decreases k, 0
  {
    if |steps| > 1 {
      PrintedHead(steps[1..]);
      assert Tail(steps)[1..] == Print(steps[1..]);
      if Fields(g, d)[i].kind.Struct? {
        ResolveIsFollow(g, Fields(g, d)[i].nested.value, address, steps[1..], k - 1);
      }
    }
  }

  /** Resolving a printed path is following its steps, errors included. */
  lemma {:induction false} ResolveIsFollow(g: Graph, d: Ref, address: nat, steps: seq<Step>, k: nat)
    requires Closed(g) && d < |g| && ValidWithin(g, d, k) && StepsOk(steps)
    ensures ResolveFrom(g, d, address, Print(steps), k) == Follow(g, d, address, steps, k)
    decreases k, 1
  {
    PrintedHead(steps);
    var found := Registry.FirstField(Fields(g, d), steps[0].name);
    if found.Some? {
      var index := StepIndex(steps[0]);
      ContinueIsFollow(g, d, found.value, index, At(Fields(g, d)[found.value], address, Element(index)), steps, k);
    }
  }

  lemma {:induction false} IndexSplits(text: CString) returns (digits: CString)
    requires IndexOf(text).Index?
    ensures digits != [] && AllDigits(digits) && DecimalValue(digits) == IndexOf(text).value
    ensures text == IndexText(Some(digits)) + IndexOf(text).rest
  {
    var n := DigitLength(text[1..]);
    digits := text[1..][..n];
    assert text[n + 1] == ']';
  }

  lemma {:induction false} NameIsIdentifier(text: CString)
    requires text != [] && IdentStart(text[0])
    ensures Identifier(text[..IdentLength(text)]) && text == text[..IdentLength(text)] + text[IdentLength(text)..]
  {
  }

  /** The step that starts a text which resolves, and what follows it. */
  lemma {:induction false} FirstStep(text: CString) returns (s: Step, rest: CString)
    requires text != [] && IdentStart(text[0]) && !IndexOf(text[IdentLength(text)..]).Refused?
    ensures StepOk(s) && s.name == text[..IdentLength(text)] && text == s.name + (IndexText(s.digits) + rest)
    ensures match IndexOf(text[IdentLength(text)..])
      case Absent => StepIndex(s) == None && rest == text[IdentLength(text)..]
      case Index(v, tail) => StepIndex(s) == Some(v) && rest == tail
      case Refused(_) => true
  {
    NameIsIdentifier(text);
    var name, after := text[..IdentLength(text)], text[IdentLength(text)..];
    var index := IndexOf(after);
    if index.Absent? {
      s, rest := Step(name, None), after;
      assert IndexText(s.digits) + rest == after;
    } else {
      var digits := IndexSplits(after);
      s, rest := Step(name, Some(digits)), index.rest;
    }
  }

  lemma {:induction false} PrintMore(s: Step, more: seq<Step>)
    requires StepOk(s) && StepsOk(more)
    ensures StepsOk([s] + more) && Print([s] + more) == s.name + (IndexText(s.digits) + (['.'] + Print(more)))
  {
    assert ([s] + more)[1..] == more;
  }

  lemma {:induction false} ResolvedContinues(g: Graph, d: Ref, address: nat, text: CString, k: nat, s: Step, rest: CString)
    requires Closed(g) && d < |g| && ValidWithin(g, d, k)
    requires ResolveFrom(g, d, address, text, k).Success?
    requires StepOk(s) && s.name == text[..IdentLength(text)]
    requires match IndexOf(text[IdentLength(text)..])
      case Absent => StepIndex(s) == None && rest == text[IdentLength(text)..]
      case Index(v, tail) => StepIndex(s) == Some(v) && rest == tail
      case Refused(_) => true
    ensures Registry.FirstField(Fields(g, d), s.name).Some?
    ensures var i := Registry.FirstField(Fields(g, d), s.name).value;
      ContinueFrom(g, d, i, StepIndex(s), At(Fields(g, d)[i], address, Element(StepIndex(s))), rest, k).Success?
  {
  }

  /** What may follow a segment: nothing, or a dot and a path into the structure it names. */
  lemma {:induction false} ContinuedInto(g: Graph, d: Ref, i: nat, index: Option<nat>, address: nat, rest: CString, k: nat)
    requires Closed(g) && d < |g| && ValidWithin(g, d, k) && i < |Fields(g, d)| && rest != []
    requires ContinueFrom(g, d, i, index, address, rest, k).Success?
    ensures var f := Fields(g, d)[i];
      && f.nested.Some? && f.nested.value < |g| && k > 0 && ValidWithin(g, f.nested.value, k - 1)
      && ResolveFrom(g, f.nested.value, address, rest[1..], k - 1).Success?
    ensures rest == ['.'] + rest[1..]
  {
    assert FieldOk(g, Fields(g, d)[i], g[d].size);
  }

  /** Every text that resolves is the text of some steps. */
  lemma {:induction false} ResolvedIsPrinted(g: Graph, d: Ref, address: nat, text: CString, k: nat) returns (steps: seq<Step>)
    requires Closed(g) && d < |g| && ValidWithin(g, d, k)
    requires ResolveFrom(g, d, address, text, k).Success?
    ensures StepsOk(steps) && Print(steps) == text
    decreases k
  {
    var s, rest := FirstStep(text);
    var i := Registry.FirstField(Fields(g, d), s.name).value;
    var value := At(Fields(g, d)[i], address, Element(StepIndex(s)));
    ResolvedContinues(g, d, address, text, k, s, rest);
    if rest == [] {
      steps := [s];
    } else {
      ContinuedInto(g, d, i, StepIndex(s), value, rest, k);
      var inner := ResolvedIsPrinted(g, Fields(g, d)[i].nested.value, value, rest[1..], k - 1);
      PrintMore(s, inner);
      steps := [s] + inner;
    }
  }

  /** A text resolves to a target exactly when it prints steps that lead there. */
  lemma {:induction false} ResolvesIffSteps(g: Graph, d: Ref, address: nat, text: CString, k: nat, t: Target)
    requires Closed(g) && d < |g| && ValidWithin(g, d, k)
    ensures ResolveFrom(g, d, address, text, k) == Success(t) <==>
      exists steps :: StepsOk(steps) && Print(steps) == text && Follow(g, d, address, steps, k) == Success(t)
  {
    if ResolveFrom(g, d, address, text, k) == Success(t) {
      var steps := ResolvedIsPrinted(g, d, address, text, k);
      ResolveIsFollow(g, d, address, steps, k);
    }
    if steps :| StepsOk(steps) && Print(steps) == text && Follow(g, d, address, steps, k) == Success(t) {
      ResolveIsFollow(g, d, address, steps, k);
    }
  }
}
