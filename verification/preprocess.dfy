/**
 What a C preprocessor keeps of a file of classified lines, and why the rewriter does
 not change it.
 */
module Preprocess {
  import opened Base
  import opened IfComments
  import opened Passes

  /**
   The macro environment, left abstract: which macros are defined, how other conditions
   evaluate, and what an ordinary line (#define and #undef among them) does to it.
   */
  datatype World<!E> = World(defined: (E, string) -> bool, holds: (E, string) -> bool, effect: (E, string) -> E)

  /** An open conditional: whether its current branch is live and whether one was taken already. */
  datatype Group = Group(active: bool, taken: bool)

  datatype State<E> = State(env: E, kept: seq<string>, groups: seq<Group>) {
    predicate Live() {
      groups == [] || groups[|groups| - 1].active
    }
  }

  /** In a dead region every group counts as taken, so none of its branches comes alive. */
  function Enter<E>(s: State<E>, condition: bool): State<E> {
    s.(groups := s.groups + [if s.Live() then Group(condition, condition) else Group(false, true)])
  }

  function Branch(g: Group, condition: bool): Group {
    if g.taken then Group(false, true) else Group(condition, condition)
  }

  function Chain<E>(s: State<E>, condition: bool): State<E> {
    if s.groups == [] then s
    else s.(groups := s.groups[|s.groups| - 1 := Branch(s.groups[|s.groups| - 1], condition)])
  }

  /** One line; a directive the preprocessor would reject is reported and otherwise treated as below. */
  function Process<E>(w: World<E>, s: State<E>, line: Line): State<E> {
    match line
    case If(negated, macro) => Enter(s, w.defined(s.env, macro) != negated)
    case IfDefined(macro) => Enter(s, w.defined(s.env, macro))
    case IfOther(condition) => Enter(s, w.holds(s.env, condition))
    case ElifDefined(macro) => Chain(s, w.defined(s.env, macro))
    case ElifOther(condition) => Chain(s, w.holds(s.env, condition))
    case Else(_) => Chain(s, true)
    case Endif(_) => if s.groups == [] then s else s.(groups := s.groups[..|s.groups| - 1])
    case Text(text) => if s.Live() then State(w.effect(s.env, text), s.kept + [text], s.groups) else s
  }

  function Preprocessed<E>(w: World<E>, env: E, lines: seq<Line>, n: nat): State<E>
    requires n <= |lines|
  {
    if n == 0 then State(env, [], []) else Process(w, Preprocessed(w, env, lines, n - 1), lines[n - 1])
  }

  ghost predicate Keeps<E(!new)>(w: World<E>, text: string) {
    forall e: E ::
      && w.defined(w.effect(e, text), LINUX) == w.defined(e, LINUX)
      && w.defined(w.effect(e, text), WINDOWS) == w.defined(e, WINDOWS)
  }

  /** No line of the file defines or undefines one of the two platform macros. */
  ghost predicate PlatformFixed<E(!new)>(w: World<E>, lines: seq<Line>) {
    forall i: nat :: i < |lines| && lines[i].Text? ==> Keeps(w, lines[i].text)
  }

  // ---------------------------------------------------------------- invariants

  /** A block whose conditions so far are all "PLATFORM_LINUX is defined". */
  ghost predicate OnlyLinux(b: Block) {
    b.kind.Defined? && b.macros == [LINUX] && !b.complexElif
  }

  ghost predicate GroupFits<E>(w: World<E>, p: State<E>, b: Block, g: Group) {
    && (!g.taken ==> !g.active)
    && (OnlyLinux(b) && !g.taken ==> !w.defined(p.env, LINUX))
  }

  /** Inside a dead branch every group is dead for good. */
  ghost predicate Nested(groups: seq<Group>) {
    forall k, m :: 0 <= k < m < |groups| && !groups[k].active ==> groups[m] == Group(false, true)
  }

  /** The open blocks of the scan are the open groups of the preprocessor. */
  ghost predicate InStep<E>(w: World<E>, s: Scanned, p: State<E>) {
    && s.Ok() && |s.stack| == |p.groups| && Nested(p.groups)
    && forall k: nat :: k < |s.stack| ==> GroupFits(w, p, s.blocks[s.stack[k]], p.groups[k])
  }

  lemma {:induction false} NestedStays<E>(w: World<E>, p: State<E>, line: Line)
    requires Nested(p.groups)
    ensures Nested(Process(w, p, line).groups)
  {
  }

  /** A line that changes the environment is live, so every open group has a taken branch. */
  lemma {:induction false} StepInStep<E>(w: World<E>, s: Scanned, p: State<E>, line: Line)
    requires InStep(w, s, p)
    ensures InStep(w, Step(s, line), Process(w, p, line))
  {
    var t, q := Step(s, line), Process(w, p, line);
    NestedStays(w, p, line);
    forall k: nat | k < |t.stack| ensures GroupFits(w, q, t.blocks[t.stack[k]], q.groups[k]) {
      if k < |s.stack| {
        assert GroupFits(w, p, s.blocks[s.stack[k]], p.groups[k]);
        assert k < |s.stack| - 1 ==> s.stack[k] != s.Top();
      }
    }
  }

  lemma {:induction false} AlwaysInStep<E>(w: World<E>, env: E, lines: seq<Line>, n: nat)
    requires n <= |lines|
    ensures InStep(w, Scan(lines, n), Preprocessed(w, env, lines, n))
    decreases n
  {
    if n > 0 {
      AlwaysInStep(w, env, lines, n - 1);
      StepInStep(w, Scan(lines, n - 1), Preprocessed(w, env, lines, n - 1), lines[n - 1]);
    }
  }

  // ------------------------------------------------- when meaning is preserved

  ghost predicate PlatformDefined<E>(w: World<E>, env: E) {
    w.defined(env, LINUX) || w.defined(env, WINDOWS)
  }

  /** After every prefix, the same lines kept, the same environment, the same open groups. */
  ghost predicate SameMeaning<E>(w: World<E>, env: E, lines: seq<Line>) {
    forall n: nat :: n <= |lines| ==> SameAfter(w, env, lines, n)
  }

  ghost predicate SameAfter<E>(w: World<E>, env: E, lines: seq<Line>, n: nat)
    requires n <= |lines|
  {
    Preprocessed(w, env, Rewritten(lines), n) == Preprocessed(w, env, lines, n)
  }

  /** No branch of the innermost group has been taken when line i is reached. */
  ghost predicate NothingTaken<E>(w: World<E>, env: E, lines: seq<Line>, i: nat)
    requires i <= |lines|
  {
    var p := Preprocessed(w, env, lines, i);
    p.groups != [] && !p.groups[|p.groups| - 1].taken
  }

  /** A converted #else selects its branch as before exactly when it is dead or a platform macro is defined. */
  lemma {:induction false} ConversionKeepsBranch<E>(w: World<E>, env: E, lines: seq<Line>, i: nat)
    requires Converted(lines, i)
    ensures var p := Preprocessed(w, env, lines, i);
      Process(w, p, Rewritten(lines)[i]) == Process(w, p, lines[i]) <==>
        (NothingTaken(w, env, lines, i) ==> PlatformDefined(w, p.env))
  {
    var p := Preprocessed(w, env, lines, i);
    AlwaysInStep(w, env, lines, i);
    RewrittenLine(lines, i);
    var last := |p.groups| - 1;
    assert BlockAt(lines, i).macros == [LINUX];
    assert GroupFits(w, p, BlockAt(lines, i), p.groups[last]);
    ChainedGroup(p, true);
    ChainedGroup(p, w.defined(p.env, WINDOWS));
  }

  lemma {:induction false} ChainedGroup<E>(p: State<E>, condition: bool)
    requires p.groups != []
    ensures Chain(p, condition).groups[|p.groups| - 1] == Branch(p.groups[|p.groups| - 1], condition)
  {
  }

  lemma {:induction false} CommentsAreIgnored<E>(w: World<E>, p: State<E>, lines: seq<Line>, i: nat)
    requires i < |lines| && !Converted(lines, i)
    ensures Process(w, p, Rewritten(lines)[i]) == Process(w, p, lines[i])
  {
    RewrittenLine(lines, i);
  }

  /** At a converted #else that would be taken, one of the two platform macros is defined. */
  ghost predicate SafeAt<E>(w: World<E>, env: E, lines: seq<Line>, i: nat)
    requires i < |lines|
  {
    Converted(lines, i) && NothingTaken(w, env, lines, i) ==> PlatformDefined(w, Preprocessed(w, env, lines, i).env)
  }

  lemma {:induction false} SafeStep<E>(w: World<E>, env: E, lines: seq<Line>, i: nat)
    requires i < |lines|
    ensures var p := Preprocessed(w, env, lines, i);
      Process(w, p, Rewritten(lines)[i]) == Process(w, p, lines[i]) <==> SafeAt(w, env, lines, i)
  {
    if Converted(lines, i) {
      ConversionKeepsBranch(w, env, lines, i);
    } else {
      CommentsAreIgnored(w, Preprocessed(w, env, lines, i), lines, i);
    }
  }

  lemma {:induction false} SafeUpTo<E>(w: World<E>, env: E, lines: seq<Line>, n: nat)
    requires n <= |lines| && forall i: nat :: i < n ==> SafeAt(w, env, lines, i)
    ensures SameAfter(w, env, lines, n)
    decreases n
  {
    hide Process, SafeAt, Replacement;
    if n > 0 {
      SafeUpTo(w, env, lines, n - 1);
      SafeStep(w, env, lines, n - 1);
    }
  }

  /** For each file and environment: meaning is preserved exactly when every converted #else is safe. */
  lemma {:induction false} SameMeaningIffSafe<E>(w: World<E>, env: E, lines: seq<Line>)
    ensures SameMeaning(w, env, lines) <==> forall i: nat :: i < |lines| ==> SafeAt(w, env, lines, i)
  {
    hide Process, SafeAt, Replacement;
    if SameMeaning(w, env, lines) {
      forall i: nat | i < |lines| ensures SafeAt(w, env, lines, i) {
        assert SameAfter(w, env, lines, i) && SameAfter(w, env, lines, i + 1);
        SafeStep(w, env, lines, i);
      }
    }
    if forall i: nat :: i < |lines| ==> SafeAt(w, env, lines, i) {
      forall n: nat | n <= |lines| ensures SameAfter(w, env, lines, n) {
        SafeUpTo(w, env, lines, n);
      }
    }
  }

  /**
   If in every environment the preprocessor reaches one of the two platform macros is
   defined, however they are redefined, the rewritten file is preprocessed like the original.
   */
  lemma {:induction false} MeaningIsPreserved<E>(w: World<E>, env: E, lines: seq<Line>)
    requires forall n: nat :: n <= |lines| ==> PlatformDefined(w, Preprocessed(w, env, lines, n).env)
    ensures SameMeaning(w, env, lines)
  {
    forall i: nat | i < |lines| ensures SafeAt(w, env, lines, i) {
      assert PlatformDefined(w, Preprocessed(w, env, lines, i).env);
    }
    SameMeaningIffSafe(w, env, lines);
  }

  lemma {:induction false} PlatformStays<E(!new)>(w: World<E>, env: E, lines: seq<Line>, n: nat)
    requires n <= |lines| && PlatformFixed(w, lines)
    ensures w.defined(Preprocessed(w, env, lines, n).env, LINUX) == w.defined(env, LINUX)
    ensures w.defined(Preprocessed(w, env, lines, n).env, WINDOWS) == w.defined(env, WINDOWS)
    decreases n
  {
    if n > 0 {
      PlatformStays(w, env, lines, n - 1);
    }
  }

  lemma {:induction false} FixedPlatformPreserves<E(!new)>(w: World<E>, env: E, lines: seq<Line>)
    requires PlatformFixed(w, lines) && PlatformDefined(w, env)
    ensures SameMeaning(w, env, lines)
  {
    forall n: nat | n <= |lines| ensures PlatformDefined(w, Preprocessed(w, env, lines, n).env) {
      PlatformStays(w, env, lines, n);
    }
    MeaningIsPreserved(w, env, lines);
  }

  /** An environment where neither platform macro is defined sees this file change. */
  lemma {:induction false} TwoLinesChange<E>(w: World<E>, env: E) returns (lines: seq<Line>)
    requires !PlatformDefined(w, env)
    ensures lines == [IfDefined(LINUX), Else(Some(WINDOWS))] && !SameMeaning(w, env, lines)
  {
    lines := [IfDefined(LINUX), Else(Some(WINDOWS))];
    TwoLinesScanned(lines, Block(Defined, "", [LINUX], false, false, false));
    assert FinalMacros(lines, 1) == [LINUX];
    assert Converted(lines, 1);
    assert Preprocessed(w, env, lines, 0) == State(env, [], []);
    assert Preprocessed(w, env, lines, 1) == State(env, [], [Group(false, false)]);
    assert !SafeAt(w, env, lines, 1);
    SameMeaningIffSafe(w, env, lines);
  }

  lemma {:induction false} TwoLinesScanned(lines: seq<Line>, b: Block)
    requires |lines| == 2 && lines[0] == IfDefined(LINUX) && lines[1].Else?
    requires b == Block(Defined, "", [LINUX], false, false, false)
    ensures Scan(lines, 0) == Scanned([], [])
    ensures Scan(lines, 1) == Scanned([b], [0])
    ensures Scan(lines, 2) == Scanned([b.(hasElse := true)], [0])
  {
  }

  /**
   Among files that do not redefine the platform macros, all keep their meaning exactly
   in the environments where at least one of the two is defined.
   */
  lemma {:induction false} PreservedIffPlatformDefined<E(!new)>(w: World<E>, env: E)
    ensures PlatformDefined(w, env) <==>
      forall lines: seq<Line> :: PlatformFixed(w, lines) ==> SameMeaning(w, env, lines)
  {
    if PlatformDefined(w, env) {
      forall lines: seq<Line> | PlatformFixed(w, lines) ensures SameMeaning(w, env, lines) {
        FixedPlatformPreserves(w, env, lines);
      }
    } else {
      var lines := TwoLinesChange(w, env);
      assert PlatformFixed(w, lines);
    }
  }

  /** A file in which no #else is converted keeps its meaning whatever is defined. */
  lemma {:induction false} CommentsOnly<E>(w: World<E>, env: E, lines: seq<Line>)
    requires NoneConverted(lines)
    ensures SameMeaning(w, env, lines)
  {
    forall i: nat | i < |lines| ensures SafeAt(w, env, lines, i) {
      assert !Converted(lines, i);
    }
    SameMeaningIffSafe(w, env, lines);
  }

  lemma {:induction false} ElseKeepsTheLine<E>(w: World<E>, env: E, lines: seq<Line>)
    requires !w.defined(env, LINUX)
    requires |lines| == 4 && lines[0] == IfDefined(LINUX) && lines[1].Else? && lines[2] == Text("x") && lines[3].Endif?
    ensures Preprocessed(w, env, lines, 0) == State(env, [], [])
    ensures Preprocessed(w, env, lines, 1) == State(env, [], [Group(false, false)])
    ensures Preprocessed(w, env, lines, 2) == State(env, [], [Group(true, true)])
    ensures Preprocessed(w, env, lines, 3).kept == ["x"]
    ensures Preprocessed(w, env, lines, 4).kept == ["x"]
  {
  }

  lemma {:induction false} ElifDropsTheLine<E>(w: World<E>, env: E, lines: seq<Line>)
    requires !w.defined(env, LINUX) && !w.defined(env, WINDOWS)
    requires |lines| == 4 && lines[0] == IfDefined(LINUX) && lines[1] == ElifDefined(WINDOWS)
    requires lines[2] == Text("x") && lines[3].Endif?
    ensures Preprocessed(w, env, lines, 0) == State(env, [], [])
    ensures Preprocessed(w, env, lines, 1) == State(env, [], [Group(false, false)])
    ensures Preprocessed(w, env, lines, 2) == State(env, [], [Group(false, false)])
    ensures Preprocessed(w, env, lines, 3).kept == []
    ensures Preprocessed(w, env, lines, 4).kept == []
  {
  }

  /** Where neither macro is defined, the line under a converted #else is lost. */
  lemma {:induction false} NeitherDefinedLosesALine<E>(w: World<E>, env: E) returns (lines: seq<Line>)
    requires !w.defined(env, LINUX) && !w.defined(env, WINDOWS)
    ensures lines == [IfDefined(LINUX), Else(Some(WINDOWS)), Text("x"), Endif(Some(LINUX))]
    ensures Preprocessed(w, env, lines, |lines|).kept == ["x"]
    ensures Preprocessed(w, env, Rewritten(lines), |lines|).kept == []
  {
    lines := [IfDefined(LINUX), Else(Some(WINDOWS)), Text("x"), Endif(Some(LINUX))];
    RewrittenExample(lines);
    ElseKeepsTheLine(w, env, lines);
    ElifDropsTheLine(w, env, Rewritten(lines));
  }

  lemma {:induction false} RewrittenExample(lines: seq<Line>)
    requires lines == [IfDefined(LINUX), Else(Some(WINDOWS)), Text("x"), Endif(Some(LINUX))]
    ensures Rewritten(lines)[0] == lines[0] && Rewritten(lines)[1] == ElifDefined(WINDOWS)
    ensures Rewritten(lines)[2] == lines[2] && Rewritten(lines)[3].Endif?
  {
    var b := Block(Defined, "", [LINUX], false, false, false);
    ScannedExample(lines, b);
    assert FinalMacros(lines, 1) == [LINUX];
    RewrittenLine(lines, 1);
    RewrittenLine(lines, 3);
  }

  lemma {:induction false} ScannedExample(lines: seq<Line>, b: Block)
    requires |lines| == 4 && lines[0] == IfDefined(LINUX) && lines[1].Else? && lines[2].Text? && lines[3].Endif?
    requires b == Block(Defined, "", [LINUX], false, false, false)
    ensures Scan(lines, 0) == Scanned([], [])
    ensures Scan(lines, 1) == Scanned([b], [0])
    ensures Scan(lines, 2) == Scanned([b.(hasElse := true)], [0])
    ensures Scan(lines, 3) == Scanned([b.(hasElse := true)], [0])
    ensures Scan(lines, 4).blocks == [b.(hasElse := true)]
  {
  }
}
