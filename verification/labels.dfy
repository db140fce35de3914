/**
 What the comments of the rewriter say, told from the lines alone: which lines form a
 conditional, which of its branches a preprocessor takes, and how a comment reads as a
 conjunction of macros that are or are not defined.
 */
module Labels {
  import opened Base
  import opened IfComments
  import opened Passes
  import opened Preprocess

  // ------------------------------------------------------- conditionals as lines

  predicate Opening(line: Line) {
    line.If? || line.IfDefined? || line.IfOther?
  }

  predicate Branching(line: Line) {
    line.ElifDefined? || line.ElifOther? || line.Else?
  }

  /** The lines that opened the conditionals still open after n lines, outermost first. */
  function Openers(lines: seq<Line>, n: nat): (os: seq<nat>)
    requires n <= |lines|
    ensures forall k :: 0 <= k < |os| ==> os[k] < n && Opening(lines[os[k]])
    ensures forall k, m :: 0 <= k < m < |os| ==> os[k] < os[m]
  {
    if n == 0 then []
    else
      var os := Openers(lines, n - 1);
      if Opening(lines[n - 1]) then os + [n - 1]
      else if lines[n - 1].Endif? && os != [] then os[..|os| - 1]
      else os
  }

  /** Line i lies directly in the conditional that line o opened. */
  predicate Within(lines: seq<Line>, o: nat, i: nat) {
    i <= |lines| && var os := Openers(lines, i); os != [] && os[|os| - 1] == o
  }

  /** Line i starts a branch of the conditional that line o opened. */
  predicate StartsBranch(lines: seq<Line>, o: nat, i: nat) {
    i < |lines| && (i == o || (o < i && Branching(lines[i]) && Within(lines, o, i)))
  }

  /** The lines before n that start a branch of the conditional line o opened. */
  function Branches(lines: seq<Line>, o: nat, n: nat): seq<Line>
    requires n <= |lines|
  {
    if n <= o then []
    else Branches(lines, o, n - 1) + if StartsBranch(lines, o, n - 1) then [lines[n - 1]] else []
  }

  predicate HasElse(c: seq<Line>) {
    exists k :: 0 <= k < |c| && c[k].Else?
  }

  predicate HasElif(c: seq<Line>) {
    exists k :: 0 <= k < |c| && (c[k].ElifDefined? || c[k].ElifOther?)
  }

  predicate HasComplex(c: seq<Line>) {
    exists k :: 0 <= k < |c| && c[k].ElifOther?
  }

  /** The macros that simple conditions of these lines test, in order. */
  function Tested(c: seq<Line>): seq<string> {
    if c == [] then []
    else
      Tested(c[..|c| - 1]) +
      match c[|c| - 1]
      case IfDefined(macro) => [macro]
      case ElifDefined(macro) => [macro]
      case _ => []
  }

  /** Every #elif, #else and #endif has its #if, no branch follows an #else, and all is closed. */
  ghost predicate WellNested(lines: seq<Line>) {
    && (forall i: nat :: i < |lines| ==> Allowed(lines, i))
    && Openers(lines, |lines|) == []
  }

  ghost predicate Allowed(lines: seq<Line>, i: nat)
    requires i < |lines|
  {
    var os := Openers(lines, i);
    && (Branching(lines[i]) ==> os != [] && !HasElse(Branches(lines, os[|os| - 1], i)))
    && (lines[i].Endif? ==> os != [])
  }

  // ----------------------------------------------- what the scan knows of a block

  /** A block of the scan says of its conditional what its lines say. */
  ghost predicate Tells(b: Block, c: seq<Line>) {
    && c != []
    && b.hasElse == HasElse(c)
    && match c[0]
       case If(negated, macro) => b.kind == (if negated then Ifndef else Ifdef) && b.macro == macro
       case IfDefined(macro) =>
         b.kind.Defined? && b.macros == Tested(c) && b.hasElif == HasElif(c) && b.complexElif == HasComplex(c)
       case _ => b.kind.Other?
  }

  lemma {:induction false} BranchAdded(c: seq<Line>, line: Line)
    ensures Tested(c + [line]) == Tested(c) +
      match line case IfDefined(macro) => [macro] case ElifDefined(macro) => [macro] case _ => []
    ensures HasElse(c + [line]) == (HasElse(c) || line.Else?)
    ensures HasElif(c + [line]) == (HasElif(c) || line.ElifDefined? || line.ElifOther?)
    ensures HasComplex(c + [line]) == (HasComplex(c) || line.ElifOther?)
  {
    var d := c + [line];
    assert d[..|d| - 1] == c;
    FlagsAdded(c, line);
  }

  lemma {:induction false} FlagsAdded(c: seq<Line>, line: Line)
    ensures HasElse(c + [line]) == (HasElse(c) || line.Else?)
    ensures HasElif(c + [line]) == (HasElif(c) || line.ElifDefined? || line.ElifOther?)
    ensures HasComplex(c + [line]) == (HasComplex(c) || line.ElifOther?)
  {
    var d := c + [line];
    assert d[|c|] == line;
    assert forall k :: 0 <= k < |c| ==> d[k] == c[k];
  }

  /** The blocks on the stack are the open conditionals. */
  ghost predicate Told(lines: seq<Line>, n: nat)
    requires n <= |lines|
  {
    var s, os := Scan(lines, n), Openers(lines, n);
    && |s.stack| == |os|
    && forall k :: 0 <= k < |os| ==> Tells(s.blocks[s.stack[k]], Branches(lines, os[k], n))
  }

  lemma {:induction false} FirstBranch(lines: seq<Line>, o: nat)
    requires o < |lines|
    ensures Branches(lines, o, o + 1) == [lines[o]]
  {
    assert Branches(lines, o, o) == [];
  }

  lemma {:induction false} Opened(s: Scanned, line: Line)
    requires s.Ok() && Opening(line)
    ensures var t := Step(s, line);
      t.stack == s.stack + [|s.blocks|] && |t.blocks| == |s.blocks| + 1
      && t.blocks[..|s.blocks|] == s.blocks && Tells(t.blocks[|s.blocks|], [line])
  {
    hide Tells;
    NewBlockTells(Step(s, line).blocks[|s.blocks|], line);
  }

  lemma {:induction false} NewBlockTells(b: Block, line: Line)
    requires match line
      case If(negated, macro) => b == Block(if negated then Ifndef else Ifdef, macro, [], false, false, false)
      case IfDefined(macro) => b == Block(Defined, "", [macro], false, false, false)
      case IfOther(_) => b == Block(Other, "", [], false, false, false)
      case _ => false
    ensures Tells(b, [line])
  {
    assert [line] == [] + [line];
    BranchAdded([], line);
  }

  lemma {:induction false} NewBranch(s: Scanned, line: Line, c: seq<Line>)
    requires s.Ok() && Branching(line) && s.Open() && Tells(s.blocks[s.Top()], c)
    ensures Step(s, line).stack == s.stack && Tells(Step(s, line).blocks[s.Top()], c + [line])
    ensures forall b :: 0 <= b < |s.blocks| && b != s.Top() ==> Step(s, line).blocks[b] == s.blocks[b]
  {
    BranchAdded(c, line);
  }

  lemma {:induction false} OtherLines(s: Scanned, line: Line)
    requires s.Ok() && !Opening(line) && (Branching(line) ==> !s.Open())
    ensures Step(s, line).blocks == s.blocks
    ensures Step(s, line).stack == if line.Endif? && s.Open() then s.stack[..|s.stack| - 1] else s.stack
  {
  }

  lemma {:induction false} AlwaysTold(lines: seq<Line>, n: nat)
    requires n <= |lines|
    ensures Told(lines, n)
    decreases n
  {
    hide Step, Tells;
    if n > 0 {
      AlwaysTold(lines, n - 1);
      ToldOn(lines, n - 1);
    }
  }

  lemma {:induction false} ToldOnOpening(lines: seq<Line>, i: nat)
    requires i < |lines| && Told(lines, i) && Opening(lines[i])
    ensures Told(lines, i + 1)
  {
    hide Step, Tells;
    var s, t, os := Scan(lines, i), Scan(lines, i + 1), Openers(lines, i);
    Opened(s, lines[i]);
    FirstBranch(lines, i);
    SameBranches(lines, i);
    assert Openers(lines, i + 1) == os + [i];
    forall k | 0 <= k <= |os| ensures Tells(t.blocks[t.stack[k]], Branches(lines, (os + [i])[k], i + 1)) {
      if k < |os| {
        assert t.blocks[s.stack[k]] == t.blocks[..|s.blocks|][s.stack[k]];
        assert Branches(lines, os[k], i + 1) == Branches(lines, os[k], i);
      }
    }
  }

  lemma {:induction false} ToldOnBranching(lines: seq<Line>, i: nat)
    requires i < |lines| && Told(lines, i) && Branching(lines[i]) && Scan(lines, i).Open()
    ensures Told(lines, i + 1)
  {
    hide Step, Tells;
    var s, t, os := Scan(lines, i), Scan(lines, i + 1), Openers(lines, i);
    NewBranch(s, lines[i], Branches(lines, os[|os| - 1], i));
    SameBranches(lines, i);
    assert Openers(lines, i + 1) == os;
    forall k | 0 <= k < |os| ensures Tells(t.blocks[t.stack[k]], Branches(lines, os[k], i + 1)) {
      if k < |os| - 1 {
        assert s.stack[k] != s.Top();
        assert Branches(lines, os[k], i + 1) == Branches(lines, os[k], i);
      }
    }
  }

  lemma {:induction false} ToldOnOther(lines: seq<Line>, i: nat)
    requires i < |lines| && Told(lines, i)
    requires !Opening(lines[i]) && (Branching(lines[i]) ==> !Scan(lines, i).Open())
    ensures Told(lines, i + 1)
  {
    hide Step, Tells;
    var os := Openers(lines, i);
    OtherLines(Scan(lines, i), lines[i]);
    SameBranches(lines, i);
    var t, rest := Scan(lines, i + 1), Openers(lines, i + 1);
    forall k | 0 <= k < |rest| ensures Tells(t.blocks[t.stack[k]], Branches(lines, rest[k], i + 1)) {
      assert rest[k] == os[k];
      assert Branches(lines, os[k], i + 1) == Branches(lines, os[k], i);
    }
  }

  lemma {:induction false} ToldOn(lines: seq<Line>, i: nat)
    requires i < |lines| && Told(lines, i)
    ensures Told(lines, i + 1)
  {
    hide Step, Tells, Scan, Openers, Branches, Told;
    var s, line := Scan(lines, i), lines[i];
    if Opening(line) {
      ToldOnOpening(lines, i);
    } else if Branching(line) && s.Open() {
      ToldOnBranching(lines, i);
    } else {
      ToldOnOther(lines, i);
    }
  }

  /** A line adds a branch to the innermost conditional and to no other. */
  lemma {:induction false} SameBranches(lines: seq<Line>, i: nat)
    requires i < |lines|
    ensures forall k :: 0 <= k < |Openers(lines, i)| ==>
      var o := Openers(lines, i)[k];
      Branches(lines, o, i + 1) ==
        Branches(lines, o, i) + if Branching(lines[i]) && k == |Openers(lines, i)| - 1 then [lines[i]] else []
  {
  }

  /** At a line inside a conditional the scan holds its block. */
  lemma {:induction false} BlockTells(lines: seq<Line>, o: nat, i: nat)
    requires i < |lines| && Within(lines, o, i)
    ensures Matched(lines, i) && Tells(BlockAt(lines, i), Branches(lines, o, i))
  {
    AlwaysTold(lines, i);
  }

  lemma {:induction false} AllowedIffAcceptable(lines: seq<Line>, i: nat)
    requires i < |lines|
    ensures Allowed(lines, i) <==> AcceptableAt(lines, i)
  {
    AlwaysTold(lines, i);
  }

  /** Balanced, as the passes are told, is well nested as the lines are. */
  lemma {:induction false} BalancedIffWellNested(lines: seq<Line>)
    ensures Balanced(lines) <==> WellNested(lines)
  {
    hide Acceptable, Allowed;
    AlwaysTold(lines, |lines|);
    forall i: nat | i < |lines| ensures Allowed(lines, i) <==> AcceptableAt(lines, i) {
      AllowedIffAcceptable(lines, i);
    }
  }

  // ------------------------------------------------------ which branch is taken

  predicate Condition<E>(w: World<E>, e: E, line: Line) {
    match line
    case If(negated, macro) => w.defined(e, macro) != negated
    case IfDefined(macro) => w.defined(e, macro)
    case IfOther(condition) => w.holds(e, condition)
    case ElifDefined(macro) => w.defined(e, macro)
    case ElifOther(condition) => w.holds(e, condition)
    case _ => true
  }

  /** Some branch of the conditional opened at o had a true condition when it was reached. */
  predicate Held<E>(w: World<E>, env: E, lines: seq<Line>, o: nat, n: nat)
    requires n <= |lines|
  {
    o < n && (Held(w, env, lines, o, n - 1) ||
      (StartsBranch(lines, o, n - 1) && Condition(w, Preprocessed(w, env, lines, n - 1).env, lines[n - 1])))
  }

  lemma {:induction false} GroupCount<E>(w: World<E>, p: State<E>, line: Line)
    ensures |Process(w, p, line).groups| ==
      if Opening(line) then |p.groups| + 1
      else if line.Endif? && p.groups != [] then |p.groups| - 1
      else |p.groups|
  {
  }

  lemma {:induction false} GroupsAreOpeners<E>(w: World<E>, env: E, lines: seq<Line>, n: nat)
    requires n <= |lines|
    ensures |Preprocessed(w, env, lines, n).groups| == |Openers(lines, n)|
    decreases n
  {
    hide Process;
    if n > 0 {
      GroupsAreOpeners(w, env, lines, n - 1);
      GroupCount(w, Preprocessed(w, env, lines, n - 1), lines[n - 1]);
    }
  }

  /** Still open after n lines. */
  predicate StillOpen(lines: seq<Line>, o: nat, n: nat)
    requires o <= n <= |lines|
  {
    |Openers(lines, o)| < |Openers(lines, n)| && Openers(lines, n)[|Openers(lines, o)|] == o
  }

  lemma {:induction false} OpenSinceOpened(lines: seq<Line>, o: nat, n: nat)
    requires o <= n <= |lines| && o in Openers(lines, n)
    ensures o < n && StillOpen(lines, o, n)
    decreases n
  {
    if n > 0 && o < n - 1 {
      OpenSinceOpened(lines, o, n - 1);
    }
  }

  /** In a live region a group has a taken branch exactly when some condition has been true. */
  lemma {:induction false} TakenIffHeld<E>(w: World<E>, env: E, lines: seq<Line>, o: nat, n: nat)
    requires o < n <= |lines| && StillOpen(lines, o, n)
    requires Preprocessed(w, env, lines, o).Live()
    ensures |Preprocessed(w, env, lines, n).groups| == |Openers(lines, n)|
    ensures Preprocessed(w, env, lines, n).groups[|Openers(lines, o)|].taken <==> Held(w, env, lines, o, n)
    decreases n
  {
    hide Process, Openers, Preprocessed, StillOpen, StartsBranch;
    if n == o + 1 {
      NewGroup(w, env, lines, o);
      GroupsAreOpeners(w, env, lines, n);
    } else {
      OpenBefore(lines, o, n);
      TakenIffHeld(w, env, lines, o, n - 1);
      TakenStep(w, env, lines, o, n);
    }
  }

  lemma {:induction false} OpenBefore(lines: seq<Line>, o: nat, n: nat)
    requires o + 1 < n <= |lines| && StillOpen(lines, o, n)
    ensures StillOpen(lines, o, n - 1)
    ensures Within(lines, o, n - 1) <==> |Openers(lines, o)| == |Openers(lines, n - 1)| - 1
  {
    OpenSinceOpened(lines, o, n - 1);
  }

  lemma {:induction false} TakenStep<E>(w: World<E>, env: E, lines: seq<Line>, o: nat, n: nat)
    requires o + 1 < n <= |lines| && StillOpen(lines, o, n) && StillOpen(lines, o, n - 1)
    requires |Preprocessed(w, env, lines, n - 1).groups| == |Openers(lines, n - 1)|
    ensures var before, d := Preprocessed(w, env, lines, n - 1), |Openers(lines, o)|;
      |Preprocessed(w, env, lines, n).groups| == |Openers(lines, n)|
      && (Preprocessed(w, env, lines, n).groups[d].taken <==>
          before.groups[d].taken || (StartsBranch(lines, o, n - 1) && Condition(w, before.env, lines[n - 1])))
  {
    hide Process;
    GroupsAreOpeners(w, env, lines, n);
    OpenBefore(lines, o, n);
    GroupStep(w, Preprocessed(w, env, lines, n - 1), lines[n - 1], |Openers(lines, o)|);
  }

  lemma {:induction false} NewGroup<E>(w: World<E>, env: E, lines: seq<Line>, o: nat)
    requires o < |lines| && StillOpen(lines, o, o + 1) && Preprocessed(w, env, lines, o).Live()
    ensures |Preprocessed(w, env, lines, o + 1).groups| == |Openers(lines, o)| + 1
    ensures Preprocessed(w, env, lines, o + 1).groups[|Openers(lines, o)|].taken <==> Held(w, env, lines, o, o + 1)
  {
    GroupsAreOpeners(w, env, lines, o);
    assert !Held(w, env, lines, o, o);
  }

  lemma {:induction false} GroupStep<E>(w: World<E>, p: State<E>, line: Line, d: nat)
    requires d < |p.groups| && d < |Process(w, p, line).groups|
    ensures Process(w, p, line).groups[d].taken <==>
      p.groups[d].taken || (Branching(line) && d == |p.groups| - 1 && Condition(w, p.env, line))
  {
  }

  // ---------------------------------------------------------- reading a comment

  const AND := " && "

  /** The last place before n where a conjunction is written. */
  function LastAnd(text: string, n: nat): (p: Option<nat>)
    requires n <= |text|
    ensures p.Some? ==> p.value + |AND| <= |text|
  {
    if n == 0 then None
    else if n + 3 <= |text| && text[n - 1..n + 3] == AND then Some(n - 1)
    else LastAnd(text, n - 1)
  }

  /** `M` reads "M is defined" and `!M` reads "M is not defined". */
  predicate ReadsOne<E>(w: World<E>, e: E, clause: string) {
    if clause != [] && clause[0] == '!' then !w.defined(e, clause[1..]) else w.defined(e, clause)
  }

  /** A comment is true when each of its clauses is. */
  predicate Reads<E>(w: World<E>, e: E, text: string)
    decreases |text|
  {
    match LastAnd(text, |text|)
    case None => ReadsOne(w, e, text)
    case Some(p) => Reads(w, e, text[..p]) && ReadsOne(w, e, text[p + |AND|..])
  }

  /** A macro name has none of the characters that comments are punctuated with. */
  predicate Word(macro: string) {
    forall k :: 0 <= k < |macro| ==> macro[k] != ' ' && macro[k] != '!' && macro[k] != '&'
  }

  predicate Words(macros: seq<string>) {
    forall k :: 0 <= k < |macros| ==> Word(macros[k])
  }

  lemma {:induction false} NoAnd(text: string, n: nat)
    requires n <= |text| && forall k :: 0 <= k < |text| ==> text[k] != ' '
    ensures LastAnd(text, n) == None
    decreases n
  {
    if n > 0 {
      assert AND[0] == ' ';
      assert n + 3 <= |text| ==> text[n - 1..n + 3][0] == text[n - 1];
      NoAnd(text, n - 1);
    }
  }

  lemma {:induction false} AndFound(text: string, p: nat, n: nat)
    requires p + 4 <= |text| && text[p..p + 4] == AND && p < n <= |text|
    requires forall k :: p + 4 <= k < |text| ==> text[k] != ' ' && text[k] != '&'
    ensures LastAnd(text, n) == Some(p)
    decreases n
  {
    if n > p + 1 {
      NoAndAfter(text, p, n);
      AndFound(text, p, n - 1);
    }
  }

  lemma {:induction false} NoAndAfter(text: string, p: nat, n: nat)
    requires p + 4 <= |text| && text[p..p + 4] == AND && p + 1 < n <= |text|
    requires forall k :: p + 4 <= k < |text| ==> text[k] != ' ' && text[k] != '&'
    ensures n + 3 <= |text| ==> text[n - 1..n + 3] != AND
  {
    assert text[p + 1] == text[p..p + 4][1] && text[p + 2] == text[p..p + 4][2];
    assert text[n - 1] != ' ' || (n < |text| ==> text[n] != '&');
    assert n + 3 <= |text| ==> text[n - 1] == text[n - 1..n + 3][0] && text[n] == text[n - 1..n + 3][1];
  }

  lemma {:induction false} ClauseReads<E>(w: World<E>, e: E, macro: string)
    requires Word(macro)
    ensures Reads(w, e, "!" + macro) <==> !w.defined(e, macro)
    ensures Reads(w, e, macro) <==> w.defined(e, macro)
  {
    NoAnd("!" + macro, |macro| + 1);
    NoAnd(macro, |macro|);
    assert ("!" + macro)[1..] == macro;
  }

  lemma {:induction false} AndReads<E>(w: World<E>, e: E, a: string, macro: string)
    requires Word(macro)
    ensures Reads(w, e, a + " && !" + macro) <==> Reads(w, e, a) && !w.defined(e, macro)
  {
    var b := "!" + macro;
    var text := a + AND + b;
    assert a + " && !" + macro == text;
    assert text[|a|..|a| + 4] == AND;
    AndFound(text, |a|, |text|);
    assert text[..|a|] == a && text[|a| + |AND|..] == b;
    assert b[1..] == macro;
  }

  lemma {:induction false} NegationsRead<E>(w: World<E>, e: E, macros: seq<string>)
    requires macros != [] && Words(macros)
    ensures Reads(w, e, Negations(macros)) <==> forall k :: 0 <= k < |macros| ==> !w.defined(e, macros[k])
    decreases |macros|
  {
    var n := |macros| - 1;
    if n == 0 {
      ClauseReads(w, e, macros[0]);
    } else {
      NegationsRead(w, e, macros[..n]);
      AndReads(w, e, Negations(macros[..n]), macros[n]);
      assert forall k :: 0 <= k < n ==> macros[..n][k] == macros[k];
    }
  }

  ghost predicate SomeHolds<E>(w: World<E>, e: E, c: seq<Line>) {
    exists k :: 0 <= k < |c| && Condition(w, e, c[k])
  }

  // --------------------------------------------------- what the comments amount to

  lemma {:induction false} TestedConditions<E>(w: World<E>, e: E, c: seq<Line>)
    requires c != [] && c[0].IfDefined? && !HasComplex(c) && !HasElse(c)
    requires forall k :: 1 <= k < |c| ==> Branching(c[k])
    ensures Tested(c) != [] && (HasElif(c) <==> |c| > 1)
    ensures |Tested(c)| == |c|
    ensures forall k :: 0 <= k < |c| ==> (w.defined(e, Tested(c)[k]) <==> Condition(w, e, c[k]))
    decreases |c|
  {
    var n := |c| - 1;
    assert c[..n] + [c[n]] == c;
    BranchAdded(c[..n], c[n]);
    if n > 0 {
      TestedConditions(w, e, c[..n]);
      assert c[n].ElifDefined?;
    }
  }

  lemma {:induction false} BranchesShape(lines: seq<Line>, o: nat, n: nat)
    requires o < n <= |lines|
    ensures Branches(lines, o, n) != [] && Branches(lines, o, n)[0] == lines[o]
    ensures forall k :: 1 <= k < |Branches(lines, o, n)| ==> Branching(Branches(lines, o, n)[k])
    decreases n
  {
    if n == o + 1 {
      FirstBranch(lines, o);
    } else {
      BranchesShape(lines, o, n - 1);
    }
  }

  /** The #else of a conditional that the rewriter leaves uncommented or as it is. */
  predicate Unlabelled(c: seq<Line>) {
    c == [] || c[0].IfOther? || (c[0].IfDefined? && HasComplex(c))
  }

  predicate NamesWords(c: seq<Line>) {
    && Words(Tested(c))
    && (c != [] && c[0].If? ==> Word(c[0].macro))
  }

  lemma {:induction false} ChainElseSays<E>(w: World<E>, e: E, b: Block, c: seq<Line>, comment: Option<string>)
    requires Tells(b, c) && c[0].IfDefined? && !HasElse(c) && !HasComplex(c) && Words(Tested(c))
    requires b.kind.Defined? ==> b.macros != []
    requires forall k :: 1 <= k < |c| ==> Branching(c[k])
    requires FixElse(b, b.macros, comment) == None
    ensures comment.Some?
    ensures Reads(w, e, comment.value) <==> !SomeHolds(w, e, c)
  {
    hide Reads, Condition, Words;
    TestedConditions(w, e, c);
    NegationsRead(w, e, b.macros);
    assert |c| == 1 ==> Negations(b.macros) == "!" + b.macros[0];
  }

  lemma {:induction false} PlainElseSays<E>(w: World<E>, e: E, b: Block, c: seq<Line>, comment: Option<string>)
    requires Tells(b, c) && c[0].If? && Word(c[0].macro)
    requires FixElse(b, b.macros, comment) == None
    ensures comment.Some?
    ensures Reads(w, e, comment.value) <==> !Condition(w, e, c[0])
  {
    hide Reads;
    ClauseReads(w, e, b.macro);
  }

  lemma {:induction false} ElseHasBlock(lines: seq<Line>, o: nat, i: nat)
    requires Balanced(lines) && i < |lines| && lines[i].Else? && Within(lines, o, i)
    ensures Matched(lines, i) && Tells(BlockAt(lines, i), Branches(lines, o, i))
    ensures Opening(lines[o]) && FinalMacros(lines, i) == BlockAt(lines, i).macros
    ensures BlockAt(lines, i).kind.Defined? ==> BlockAt(lines, i).macros != []
    ensures !HasElse(Branches(lines, o, i))
    ensures Replacement(lines, i) == FixElse(BlockAt(lines, i), BlockAt(lines, i).macros, lines[i].comment)
  {
    hide Scan, Step, Branches;
    BlockTells(lines, o, i);
    ChainIsComplete(lines, i);
    assert AcceptableAt(lines, i);
  }

  /** After one pass over a balanced file nothing is left to say about an #else that is still one. */
  lemma {:induction false} ElseIsSettled(lines: seq<Line>, i: nat)
    requires Balanced(lines) && i < |lines| && Rewritten(lines)[i].Else?
    ensures Replacement(Rewritten(lines), i) == None
  {
    hide Scan, Step, FixElse;
    var after := Rewritten(lines);
    RewrittenLine(lines, i);
    if Matched(lines, i) {
      SameAt(lines, i);
      StaysBalanced(lines);
      assert AcceptableAt(lines, i);
      assert BlockAt(after, i) == BlockAt(lines, i);
      ChainIsComplete(lines, i);
      ChainIsComplete(after, i);
      ElseSettled(BlockAt(lines, i), FinalMacros(lines, i), lines[i].comment);
    } else {
      RewrittenScan(lines, i);
    }
  }

  /** Every condition of the conditional still has the value it had when its line was reached. */
  ghost predicate Steady<E>(w: World<E>, env: E, lines: seq<Line>, o: nat, i: nat)
    requires i <= |lines|
  {
    forall j: nat :: o <= j < i && StartsBranch(lines, o, j) ==> SteadyAt(w, env, lines, i, j)
  }

  ghost predicate SteadyAt<E>(w: World<E>, env: E, lines: seq<Line>, i: nat, j: nat)
    requires j < i <= |lines|
  {
    Condition(w, Preprocessed(w, env, lines, j).env, lines[j])
      == Condition(w, Preprocessed(w, env, lines, i).env, lines[j])
  }

  ghost predicate KeepsCondition<E(!new)>(w: World<E>, text: string, line: Line) {
    forall e: E :: Condition(w, w.effect(e, text), line) == Condition(w, e, line)
  }

  /** No line between i and n defines or undefines what the condition of the line tests. */
  ghost predicate Kept<E(!new)>(w: World<E>, lines: seq<Line>, line: Line, i: nat, n: nat) {
    forall m: nat :: i <= m < n && m < |lines| && lines[m].Text? ==> KeepsCondition(w, lines[m].text, line)
  }

  lemma {:induction false} ConditionStays<E(!new)>(w: World<E>, env: E, lines: seq<Line>, line: Line, i: nat, n: nat)
    requires i <= n <= |lines| && Kept(w, lines, line, i, n)
    ensures Condition(w, Preprocessed(w, env, lines, i).env, line) == Condition(w, Preprocessed(w, env, lines, n).env, line)
    decreases n
  {
    hide Condition;
    if i < n {
      ConditionStays(w, env, lines, line, i, n - 1);
      var p := Preprocessed(w, env, lines, n - 1);
      assert lines[n - 1].Text? ==> KeepsCondition(w, lines[n - 1].text, line);
      assert Process(w, p, lines[n - 1]).env ==
        if lines[n - 1].Text? && p.Live() then w.effect(p.env, lines[n - 1].text) else p.env;
    }
  }

  /** If the macros a conditional tests are not redefined inside it, its conditions keep their values. */
  lemma {:induction false} UnredefinedIsSteady<E(!new)>(w: World<E>, env: E, lines: seq<Line>, o: nat, i: nat)
    requires i <= |lines| && forall j: nat :: o <= j < i && StartsBranch(lines, o, j) ==> Kept(w, lines, lines[j], j, i)
    ensures Steady(w, env, lines, o, i)
  {
    hide Condition, StartsBranch, Preprocessed;
    forall j: nat | o <= j < i && StartsBranch(lines, o, j) ensures SteadyAt(w, env, lines, i, j) {
      ConditionStays(w, env, lines, lines[j], j, i);
    }
  }

  lemma {:induction false} HeldIffSomeHolds<E>(w: World<E>, env: E, lines: seq<Line>, o: nat, i: nat, n: nat)
    requires n <= i <= |lines| && Steady(w, env, lines, o, i)
    ensures Held(w, env, lines, o, n) <==>
      SomeHolds(w, Preprocessed(w, env, lines, i).env, Branches(lines, o, n))
    decreases n
  {
    hide Condition, Preprocessed, StartsBranch;
    if o < n {
      HeldIffSomeHolds(w, env, lines, o, i, n - 1);
      var c := Branches(lines, o, n - 1);
      if StartsBranch(lines, o, n - 1) {
        assert SteadyAt(w, env, lines, i, n - 1);
        assert Branches(lines, o, n) == c + [lines[n - 1]];
        MoreHolds(w, Preprocessed(w, env, lines, i).env, c, lines[n - 1]);
      } else {
        assert Branches(lines, o, n) == c;
      }
    }
  }

  lemma {:induction false} MoreHolds<E>(w: World<E>, e: E, c: seq<Line>, line: Line)
    ensures SomeHolds(w, e, c + [line]) <==> SomeHolds(w, e, c) || Condition(w, e, line)
  {
    assert (c + [line])[|c|] == line;
    assert forall k :: 0 <= k < |c| ==> (c + [line])[k] == c[k];
  }

  /** In a live conditional the #else branch is taken exactly when none of its conditions holds. */
  lemma {:induction false} ElseTaken<E>(w: World<E>, env: E, lines: seq<Line>, o: nat, i: nat)
    requires i < |lines| && lines[i].Else? && Within(lines, o, i)
    requires Preprocessed(w, env, lines, o).Live() && Steady(w, env, lines, o, i)
    ensures Preprocessed(w, env, lines, i + 1).Live() <==>
      !SomeHolds(w, Preprocessed(w, env, lines, i).env, Branches(lines, o, i))
  {
    hide SomeHolds, Condition, Held;
    OpenSinceOpened(lines, o, i);
    TakenIffHeld(w, env, lines, o, i);
    HeldIffSomeHolds(w, env, lines, o, i, i);
    ElseIsLive(w, Preprocessed(w, env, lines, i), lines[i]);
    Innermost(lines, o, i);
  }

  lemma {:induction false} Innermost(lines: seq<Line>, o: nat, i: nat)
    requires o < i <= |lines| && Within(lines, o, i) && StillOpen(lines, o, i)
    ensures |Openers(lines, i)| == |Openers(lines, o)| + 1
  {
  }

  lemma {:induction false} ElseIsLive<E>(w: World<E>, p: State<E>, line: Line)
    requires line.Else? && p.groups != []
    ensures Process(w, p, line).Live() <==> !p.groups[|p.groups| - 1].taken
  {
  }

  /**
   In a rewritten balanced file the comment of an #else is true, at its line, when the
   #else branch is the one taken, and only then: except under an #ifdef or #ifndef that an
   #elif continues, where it tells only that the first branch is not taken.
   */
  lemma {:induction false} ElseCommentTells<E>(w: World<E>, env: E, lines: seq<Line>, o: nat, i: nat)
    requires Balanced(lines) && i < |lines| && Rewritten(lines)[i].Else? && Within(Rewritten(lines), o, i)
    requires !Unlabelled(Branches(Rewritten(lines), o, i)) && NamesWords(Branches(Rewritten(lines), o, i))
    requires Preprocessed(w, env, Rewritten(lines), o).Live() && Steady(w, env, Rewritten(lines), o, i)
    ensures var after, c := Rewritten(lines), Branches(Rewritten(lines), o, i);
      var e := Preprocessed(w, env, after, i).env;
      var taken := Preprocessed(w, env, after, i + 1).Live();
      var comment := after[i].comment;
      && comment.Some?
      && (c[0].IfDefined? || |c| == 1 ==> (Reads(w, e, comment.value) <==> taken))
      && (taken ==> Reads(w, e, comment.value))
      && (Reads(w, e, comment.value) && !taken <==> c[0].If? && !Condition(w, e, c[0]) && SomeHolds(w, e, c[1..]))
  {
    hide Reads, Condition, Replacement, Process, Tells, FixElse;
    var after := Rewritten(lines);
    var c := Branches(after, o, i);
    var e := Preprocessed(w, env, after, i).env;
    ElseIsSettled(lines, i);
    StaysBalanced(lines);
    ElseHasBlock(after, o, i);
    BranchesShape(after, o, i);
    if c[0].IfDefined? {
      ChainElseSays(w, e, BlockAt(after, i), c, after[i].comment);
    } else {
      PlainElseSays(w, e, BlockAt(after, i), c, after[i].comment);
    }
    ElseTaken(w, env, after, o, i);
    FirstOrLater(w, e, c);
  }

  lemma {:induction false} FirstOrLater<E>(w: World<E>, e: E, c: seq<Line>)
    requires c != []
    ensures SomeHolds(w, e, c) <==> Condition(w, e, c[0]) || SomeHolds(w, e, c[1..])
  {
    assert forall k :: 1 <= k < |c| ==> c[k] == c[1..][k - 1];
  }

  /** Where a chain has another kind of condition the #else loses its comment; other conditionals are left alone. */
  lemma {:induction false} ElseUnlabelled(lines: seq<Line>, o: nat, i: nat)
    requires i < |lines| && lines[i].Else? && Within(lines, o, i) && Unlabelled(Branches(lines, o, i))
    ensures Rewritten(lines)[i] == if lines[o].IfOther? then lines[i] else Else(None)
  {
    hide Scan, Step;
    BlockTells(lines, o, i);
    BranchesShape(lines, o, i);
  }

  /** Lines outside any conditional, and those that are no #else or #endif, stay as they are. */
  lemma {:induction false} OtherwiseUntouched(lines: seq<Line>, i: nat)
    requires i < |lines| && (Openers(lines, i) == [] || !(lines[i].Else? || lines[i].Endif?))
    ensures Rewritten(lines)[i] == lines[i]
  {
    AlwaysTold(lines, i);
  }

  lemma {:induction false} ClosedStays(lines: seq<Line>, n: nat, m: nat, b: nat)
    requires n <= m <= |lines| && b < |Scan(lines, n).blocks| && b !in Scan(lines, n).stack
    ensures b < |Scan(lines, m).blocks| && b !in Scan(lines, m).stack
    ensures Scan(lines, m).blocks[b] == Scan(lines, n).blocks[b]
    decreases m - n
  {
    if n < m {
      ClosedStays(lines, n, m - 1, b);
      ClosedStep(Scan(lines, m - 1), lines[m - 1], b);
    }
  }

  lemma {:induction false} ClosedStep(s: Scanned, line: Line, b: nat)
    requires s.Ok() && b < |s.blocks| && b !in s.stack
    ensures b < |Step(s, line).blocks| && b !in Step(s, line).stack && Step(s, line).blocks[b] == s.blocks[b]
  {
  }

  lemma {:induction false} EndClosesBlock(lines: seq<Line>, j: nat)
    requires Matched(lines, j) && lines[j].Endif?
    ensures FinalMacros(lines, j) == BlockAt(lines, j).macros
  {
    ClosedAtEnd(Scan(lines, j), lines[j]);
    ClosedStays(lines, j + 1, |lines|, BlockOf(lines, j));
  }

  lemma {:induction false} ClosedAtEnd(s: Scanned, line: Line)
    requires s.Ok() && s.Open() && line.Endif?
    ensures s.Top() !in Step(s, line).stack && Step(s, line).blocks == s.blocks
  {
  }

  /**
   After the rewriting an #endif names the macro its #ifdef, #ifndef or unchained
   `#if defined` tests, or the label of all the macros its chain tests; it is bare when the
   chain has another kind of condition, and as it was under any other #if.
   */
  lemma {:induction false} EndComment(lines: seq<Line>, o: nat, j: nat)
    requires j < |lines| && lines[j].Endif? && Within(lines, o, j)
    ensures var c, after := Branches(lines, o, j), Rewritten(lines)[j];
      match lines[o]
      case If(_, macro) => after == Endif(Some(macro))
      case IfDefined(macro) =>
        after == Endif(if HasComplex(c) then None else if HasElif(c) then Label(Tested(c)) else Some(macro))
      case _ => after == lines[j]
  {
    hide Scan, Step, Label;
    BlockTells(lines, o, j);
    BranchesShape(lines, o, j);
    EndClosesBlock(lines, j);
    if lines[o].IfDefined? {
      FirstTested(Branches(lines, o, j));
    }
  }

  lemma {:induction false} FirstTested(c: seq<Line>)
    requires c != [] && c[0].IfDefined?
    ensures Tested(c) != [] && Tested(c)[0] == c[0].macro
    decreases |c|
  {
    var n := |c| - 1;
    if n > 0 {
      FirstTested(c[..n]);
    } else {
      assert c[..0] == [];
    }
  }

  /** Under an #ifdef with an #elif the comment may be true of a branch that is not taken. */
  lemma {:induction false} ElseCommentMayMislead<E>(w: World<E>, env: E)
    requires !w.defined(env, "A") && w.defined(env, "B")
    ensures var lines := [If(false, "A"), ElifDefined("B"), Else(Some("!A")), Endif(Some("A"))];
      && Rewritten(lines) == lines
      && Reads(w, env, "!A") && !Preprocessed(w, env, lines, 3).Live()
  {
    hide Reads, Preprocessed;
    var lines := [If(false, "A"), ElifDefined("B"), Else(Some("!A")), Endif(Some("A"))];
    MisleadingRun(w, env, lines);
    ClauseReads(w, env, "A");
    assert "!" + "A" == "!A";
    MisleadingKept(lines);
  }

  lemma {:induction false} MisleadingKept(lines: seq<Line>)
    requires lines == [If(false, "A"), ElifDefined("B"), Else(Some("!A")), Endif(Some("A"))]
    ensures Rewritten(lines) == lines
  {
    hide Scan, Step, FixElse, FixEndif;
    assert Replacement(lines, 0) == None;
    assert Replacement(lines, 1) == None;
    MisleadingFixes(lines);
    hide Replacement;
    forall i: nat | i < 4 ensures Rewritten(lines)[i] == lines[i] {
      assert i == 0 || i == 1 || i == 2 || i == 3;
    }
  }

  lemma {:induction false} MisleadingFixes(lines: seq<Line>)
    requires lines == [If(false, "A"), ElifDefined("B"), Else(Some("!A")), Endif(Some("A"))]
    ensures Replacement(lines, 2) == None && Replacement(lines, 3) == None
  {
    var b := Block(Ifdef, "A", [], false, false, false);
    MisleadingScan(lines, b);
    assert BlockAt(lines, 2) == b && BlockAt(lines, 3) == b.(hasElse := true);
    assert "!" + "A" == "!A";
  }

  lemma {:induction false} MisleadingScan(lines: seq<Line>, b: Block)
    requires lines == [If(false, "A"), ElifDefined("B"), Else(Some("!A")), Endif(Some("A"))]
    requires b == Block(Ifdef, "A", [], false, false, false)
    ensures Scan(lines, 1) == Scanned([b], [0]) && Scan(lines, 2) == Scanned([b], [0])
    ensures Scan(lines, 3) == Scanned([b.(hasElse := true)], [0])
  {
    assert Scan(lines, 0) == Scanned([], []);
  }

  lemma {:induction false} MisleadingRun<E>(w: World<E>, env: E, lines: seq<Line>)
    requires !w.defined(env, "A") && w.defined(env, "B")
    requires lines == [If(false, "A"), ElifDefined("B"), Else(Some("!A")), Endif(Some("A"))]
    ensures Preprocessed(w, env, lines, 3) == State(env, [], [Group(false, true)])
  {
    assert Preprocessed(w, env, lines, 0) == State(env, [], []);
    assert Preprocessed(w, env, lines, 1) == State(env, [], [Group(false, false)]);
    assert Preprocessed(w, env, lines, 2) == State(env, [], [Group(true, true)]);
  }
}
