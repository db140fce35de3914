/**
 What the rewriter does to its own output: which lines a second pass still changes, and
 why a third pass never changes any.
 */
module Passes {
  import opened Base
  import opened IfComments

  /**
   An #else the rewriter converts: it is labelled PLATFORM_WINDOWS, and its block tests
   PLATFORM_LINUX and, counting later lines, nothing else.
   */
  ghost predicate Converted(lines: seq<Line>, i: nat) {
    && Matched(lines, i) && lines[i] == Else(Some(WINDOWS))
    && BlockAt(lines, i).kind.Defined? && !BlockAt(lines, i).complexElif && FinalMacros(lines, i) == [LINUX]
  }

  ghost predicate NoneConverted(lines: seq<Line>) {
    forall i: nat :: !Converted(lines, i)
  }

  /** These are the #else lines that become #elif, and nothing else does. */
  lemma {:induction false} ConvertedBecomesElif(lines: seq<Line>, i: nat)
    requires i < |lines| && lines[i].Else?
    ensures Converted(lines, i) ==> NewLine(lines, i) == ElifDefined(WINDOWS)
    ensures !Converted(lines, i) ==> NewLine(lines, i).Else?
  {
  }

  // ------------------------------------------------ the scan of a rewritten file

  /** A block and the same block in the rewritten file, where its chain may be longer. */
  ghost predicate SameBlock(a: Block, b: Block) {
    && a.kind == b.kind && a.macro == b.macro && a.complexElif == b.complexElif
    && (b.hasElse ==> a.hasElse) && (a.hasElif ==> b.hasElif)
    && |a.macros| <= |b.macros| && (a.kind.Defined? ==> a.macros != [] && a.macros[0] == b.macros[0])
    && (!a.hasElse ==> a == b)
  }

  ghost predicate SameScan(s: Scanned, t: Scanned) {
    && s.stack == t.stack && |s.blocks| == |t.blocks|
    && forall b :: 0 <= b < |s.blocks| ==> SameBlock(s.blocks[b], t.blocks[b])
  }

  /** A line and its replacement. */
  ghost predicate SameLine(s: Scanned, a: Line, b: Line) {
    || a == b
    || (a.Else? && b.Else?)
    || (a.Endif? && b.Endif?)
    || (a.Else? && b.ElifDefined? && s.Open() && s.Top() < |s.blocks| && s.blocks[s.Top()].kind.Defined?)
  }

  lemma {:induction false} StepKeepsSame(s: Scanned, t: Scanned, a: Line, b: Line)
    requires s.Ok() && t.Ok() && SameScan(s, t) && SameLine(s, a, b)
    ensures SameScan(Step(s, a), Step(t, b))
  {
  }

  lemma {:induction false} RewrittenLine(lines: seq<Line>, i: nat)
    requires i < |lines|
    ensures SameLine(Scan(lines, i), lines[i], Rewritten(lines)[i])
    ensures Rewritten(lines)[i] == NewLine(lines, i)
    ensures lines[i].Else? ==> (Converted(lines, i) <==> Rewritten(lines)[i].ElifDefined?)
    ensures Converted(lines, i) ==> Rewritten(lines)[i] == ElifDefined(WINDOWS)
  {
    if lines[i].Else? {
      ConvertedBecomesElif(lines, i);
    }
  }

  lemma {:induction false} RewrittenStep(lines: seq<Line>, i: nat, t: Scanned)
    requires i < |lines| && t.Ok() && SameScan(Scan(lines, i), t)
    ensures SameScan(Step(Scan(lines, i), lines[i]), Step(t, Rewritten(lines)[i]))
  {
    RewrittenLine(lines, i);
    StepKeepsSame(Scan(lines, i), t, lines[i], Rewritten(lines)[i]);
  }

  lemma {:induction false} RewrittenScan(lines: seq<Line>, n: nat)
    requires n <= |lines|
    ensures SameScan(Scan(lines, n), Scan(Rewritten(lines), n))
    decreases n
  {
    hide Step, NewLine;
    if n > 0 {
      RewrittenScan(lines, n - 1);
      RewrittenStep(lines, n - 1, Scan(Rewritten(lines), n - 1));
    }
  }

  // ----------------------------------------- a rewritten file has none to convert

  /** An #else left as an #else in a block whose only macro is PLATFORM_LINUX does not name PLATFORM_WINDOWS. */
  lemma {:induction false} KeptElse(lines: seq<Line>, i: nat)
    requires i < |lines| && lines[i].Else? && Matched(lines, i) && !Converted(lines, i)
    requires BlockAt(lines, i).kind.Defined? && FinalMacros(lines, i) == [LINUX]
    ensures NewLine(lines, i).Else? && NewLine(lines, i).comment != Some(WINDOWS)
  {
    assert Negations([LINUX]) == "!" + LINUX;
    assert ("!" + LINUX)[0] == '!';
  }

  lemma {:induction false} NothingLeftToConvert(lines: seq<Line>)
    ensures NoneConverted(Rewritten(lines))
  {
    hide Scan, Replacement;
    var after := Rewritten(lines);
    forall i: nat ensures !Converted(after, i) {
      if Converted(after, i) {
        RewrittenLine(lines, i);
        RewrittenScan(lines, i);
        RewrittenScan(lines, |lines|);
        BlocksGrow(lines, i, |lines|, BlockOf(lines, i));
        assert SameBlock(BlockAt(lines, i), BlockAt(after, i));
        assert SameBlock(Scan(lines, |lines|).blocks[BlockOf(lines, i)], Scan(after, |lines|).blocks[BlockOf(lines, i)]);
        assert FinalMacros(lines, i) == [LINUX];
        KeptElse(lines, i);
      }
    }
  }

  // ---------------------------------------------------- one pass without any is final

  lemma {:induction false} CommentsDoNotMatter(s: Scanned, a: Line, b: Line)
    requires s.Ok() && (a == b || (a.Else? && b.Else?) || (a.Endif? && b.Endif?))
    ensures Step(s, a) == Step(s, b)
  {
  }

  lemma {:induction false} ScanUnchanged(lines: seq<Line>, n: nat)
    requires NoneConverted(lines) && n <= |lines|
    ensures Scan(Rewritten(lines), n) == Scan(lines, n)
    decreases n
  {
    hide Step, Replacement;
    if n > 0 {
      ScanUnchanged(lines, n - 1);
      RewrittenLine(lines, n - 1);
      assert !Converted(lines, n - 1);
      CommentsDoNotMatter(Scan(lines, n - 1), lines[n - 1], Rewritten(lines)[n - 1]);
    }
  }

  lemma {:induction false} Settled(lines: seq<Line>, i: nat)
    requires NoneConverted(lines) && i < |lines|
    ensures Replacement(Rewritten(lines), i) == None
  {
    ScanUnchanged(lines, i);
    ScanUnchanged(lines, |lines|);
    RewrittenLine(lines, i);
    assert !Converted(lines, i);
    if Matched(lines, i) {
      assert FinalMacros(Rewritten(lines), i) == FinalMacros(lines, i);
      if lines[i].Else? {
        ElseSettled(BlockAt(lines, i), FinalMacros(lines, i), lines[i].comment);
      }
    }
  }

  lemma {:induction false} ElseSettled(b: Block, macros: seq<string>, comment: Option<string>)
    requires b.kind.Defined? ==> macros != []
    requires FixElse(b, macros, comment).Some? ==> FixElse(b, macros, comment).value.Else?
    ensures var kept := match FixElse(b, macros, comment) case Some(line) => line.comment case None => comment;
      FixElse(b, macros, kept) == None
  {
    if b.kind.Defined? && macros == [LINUX] {
      assert Negations([LINUX]) == "!" + LINUX;
      assert ("!" + LINUX)[0] == '!';
    }
  }

  lemma {:induction false} OnePassIsEnough(lines: seq<Line>)
    requires NoneConverted(lines)
    ensures Fixes(Rewritten(lines)) == map[]
    ensures Rewritten(Rewritten(lines)) == Rewritten(lines)
  {
    var after := Rewritten(lines);
    forall i: nat | i < |lines| ensures Replacement(after, i) == None && Rewritten(after)[i] == after[i] {
      Settled(lines, i);
    }
  }

  /** Whatever the input, a third pass finds nothing to fix. */
  lemma {:induction false} TwoPassesAreEnough(lines: seq<Line>)
    ensures Fixes(Rewritten(Rewritten(lines))) == map[]
    ensures Rewritten(Rewritten(Rewritten(lines))) == Rewritten(Rewritten(lines))
  {
    NothingLeftToConvert(lines);
    OnePassIsEnough(Rewritten(lines));
  }

  // --------------------------------------------------- when one pass is not enough

  /** A line a preprocessor accepts after the lines before it. */
  ghost predicate Acceptable(s: Scanned, line: Line)
    requires s.Ok()
  {
    && (line.ElifDefined? || line.ElifOther? || line.Else? ==> s.Open() && !s.blocks[s.Top()].hasElse)
    && (line.Endif? ==> s.Open())
  }

  ghost predicate AcceptableAt(lines: seq<Line>, i: nat)
    requires i < |lines|
  {
    Acceptable(Scan(lines, i), lines[i])
  }

  /** Every conditional is closed and has at most one #else, the last branch of its chain. */
  ghost predicate Balanced(lines: seq<Line>) {
    && (forall i: nat :: i < |lines| ==> AcceptableAt(lines, i))
    && Scan(lines, |lines|).stack == []
  }

  lemma {:induction false} BlockIsClosed(lines: seq<Line>, n: nat, b: nat) returns (j: nat)
    requires Balanced(lines) && n <= |lines| && b in Scan(lines, n).stack
    ensures n <= j < |lines| && lines[j].Endif? && Matched(lines, j) && BlockOf(lines, j) == b
    decreases |lines| - n
  {
    var s := Scan(lines, n);
    assert AcceptableAt(lines, n);
    if lines[n].Endif? && s.Top() == b {
      j := n;
    } else {
      StaysOpen(s, lines[n], b);
      j := BlockIsClosed(lines, n + 1, b);
    }
  }

  lemma {:induction false} StaysOpen(s: Scanned, line: Line, b: nat)
    requires s.Ok() && b in s.stack && !(line.Endif? && s.Top() == b)
    ensures b in Step(s, line).stack
  {
    var k :| 0 <= k < |s.stack| && s.stack[k] == b;
    assert Step(s, line).stack[k] == b;
  }

  lemma {:induction false} FrozenByElse(s: Scanned, line: Line, b: nat)
    requires s.Ok() && Acceptable(s, line) && b < |s.blocks| && s.blocks[b].hasElse
    ensures b < |Step(s, line).blocks| && Step(s, line).blocks[b] == s.blocks[b]
  {
  }

  /** Once a block has its #else, nothing changes it. */
  lemma {:induction false} ElseIsLast(lines: seq<Line>, n: nat, m: nat, b: nat)
    requires Balanced(lines) && n <= m <= |lines| && b < |Scan(lines, n).blocks|
    requires Scan(lines, n).blocks[b].hasElse
    ensures b < |Scan(lines, m).blocks| && Scan(lines, m).blocks[b] == Scan(lines, n).blocks[b]
    decreases m - n
  {
    if n < m {
      ElseIsLast(lines, n, m - 1, b);
      assert AcceptableAt(lines, m - 1);
      FrozenByElse(Scan(lines, m - 1), lines[m - 1], b);
    }
  }

  /** A chain that was extended by simple #elif lines only has at least two macros. */
  lemma {:induction false} ChainIsLong(lines: seq<Line>, n: nat, b: nat)
    requires n <= |lines| && b < |Scan(lines, n).blocks|
    requires Scan(lines, n).blocks[b].hasElif && !Scan(lines, n).blocks[b].complexElif
    ensures |Scan(lines, n).blocks[b].macros| >= 2
    decreases n
  {
    if n > 0 && b < |Scan(lines, n - 1).blocks| {
      var before := Scan(lines, n - 1).blocks[b];
      if before.hasElif && !before.complexElif {
        ChainIsLong(lines, n - 1, b);
      }
    }
  }

  lemma {:induction false} LabelEndsInUnderscore(macros: seq<string>)
    ensures Label(macros) != Some(LINUX)
  {
    if |macros| >= 2 && Label(macros).Some? {
      LabelIsLongest(macros, []);
      assert LINUX[|LINUX| - 1] == 'X';
    }
  }

  /** The #endif of a block sees it as its #else did. */
  lemma {:induction false} EndOfElse(lines: seq<Line>, i: nat) returns (j: nat)
    requires Balanced(lines) && Matched(lines, i) && lines[i].Else?
    ensures i < j < |lines| && lines[j].Endif? && Matched(lines, j) && BlockOf(lines, j) == BlockOf(lines, i)
    ensures BlockAt(lines, j) == BlockAt(lines, i).(hasElse := true)
  {
    var b := BlockOf(lines, i);
    StaysOpen(Scan(lines, i), lines[i], b);
    j := BlockIsClosed(lines, i + 1, b);
    ElseStep(lines, i);
    ElseIsLast(lines, i + 1, j, b);
  }

  lemma {:induction false} ElseStep(lines: seq<Line>, i: nat)
    requires Matched(lines, i) && lines[i].Else?
    ensures BlockOf(lines, i) < |Scan(lines, i + 1).blocks|
    ensures Scan(lines, i + 1).blocks[BlockOf(lines, i)] == BlockAt(lines, i).(hasElse := true)
  {
  }

  lemma {:induction false} PlainEnd(b: Block, macros: seq<string>, comment: Option<string>)
    requires b.kind.Defined? && !b.complexElif && !b.hasElif && macros == [LINUX]
    ensures FixEndif(b, macros, comment) == if comment == Some(LINUX) then None else Some(Endif(Some(LINUX)))
  {
  }

  lemma {:induction false} ChainEnd(b: Block, macros: seq<string>)
    requires b.kind.Defined? && !b.complexElif && b.hasElif && macros != []
    ensures FixEndif(b, macros, Some(LINUX)).Some?
  {
    LabelEndsInUnderscore(macros);
  }

  lemma {:induction false} SameFinalMacros(lines: seq<Line>, i: nat, j: nat)
    requires Matched(lines, i) && Matched(lines, j) && BlockOf(lines, i) == BlockOf(lines, j)
    ensures FinalMacros(lines, i) == FinalMacros(lines, j)
  {
  }

  lemma {:induction false} OnlyMacro(lines: seq<Line>, i: nat)
    requires Matched(lines, i) && BlockAt(lines, i).kind.Defined? && FinalMacros(lines, i) == [LINUX]
    requires !BlockAt(lines, i).complexElif
    ensures !BlockAt(lines, i).hasElif
  {
    if BlockAt(lines, i).hasElif {
      ChainIsLong(lines, i, BlockOf(lines, i));
    }
  }

  lemma {:induction false} EndReplacement(lines: seq<Line>, j: nat)
    requires Matched(lines, j) && lines[j].Endif?
    ensures Replacement(lines, j) == FixEndif(BlockAt(lines, j), FinalMacros(lines, j), lines[j].comment)
    ensures NewLine(lines, j) == match Replacement(lines, j) case Some(line) => line case None => lines[j]
  {
  }

  /** The #endif of a converted block is labelled with the macro of its #if by the first pass. */
  lemma {:induction false} ConvertedEnd(lines: seq<Line>, i: nat, j: nat)
    requires Matched(lines, i) && Converted(lines, i)
    requires Matched(lines, j) && lines[j].Endif? && BlockOf(lines, j) == BlockOf(lines, i)
    requires BlockAt(lines, j) == BlockAt(lines, i).(hasElse := true)
    ensures BlockAt(lines, j).kind.Defined? && !BlockAt(lines, j).complexElif
    ensures NewLine(lines, j) == Endif(Some(LINUX))
  {
    SameFinalMacros(lines, i, j);
    OnlyMacro(lines, i);
    EndReplacement(lines, j);
    PlainEnd(BlockAt(lines, j), FinalMacros(lines, j), lines[j].comment);
  }

  /** And the second pass, finding an #elif in that block, expects another label. */
  lemma {:induction false} EndChangesAgain(lines: seq<Line>, i: nat)
    requires Balanced(lines) && Matched(lines, i) && Converted(lines, i)
    ensures exists j: nat :: j in Fixes(Rewritten(lines))
  {
    var j := EndOfElse(lines, i);
    ConvertedEnd(lines, i, j);
    RewrittenLine(lines, j);
    ConvertedChain(lines, i, j);
    EndReplacement(Rewritten(lines), j);
    ChainEnd(BlockAt(Rewritten(lines), j), FinalMacros(Rewritten(lines), j));
    assert j in Fixes(Rewritten(lines));
  }

  lemma {:induction false} ElifStep(lines: seq<Line>, i: nat)
    requires Matched(lines, i) && lines[i].ElifDefined? && BlockAt(lines, i).kind.Defined?
    ensures BlockOf(lines, i) < |Scan(lines, i + 1).blocks|
    ensures Scan(lines, i + 1).blocks[BlockOf(lines, i)].hasElif
  {
  }

  lemma {:induction false} SameAt(lines: seq<Line>, i: nat)
    requires Matched(lines, i)
    ensures Matched(Rewritten(lines), i) && BlockOf(Rewritten(lines), i) == BlockOf(lines, i)
    ensures SameBlock(BlockAt(lines, i), BlockAt(Rewritten(lines), i))
  {
    RewrittenScan(lines, i);
  }

  lemma {:induction false} ConvertedChain(lines: seq<Line>, i: nat, j: nat)
    requires Matched(lines, i) && Converted(lines, i) && i < j
    requires Matched(lines, j) && BlockOf(lines, j) == BlockOf(lines, i)
    ensures Matched(Rewritten(lines), j) && BlockAt(Rewritten(lines), j).hasElif
    ensures SameBlock(BlockAt(lines, j), BlockAt(Rewritten(lines), j))
  {
    hide Scan, Replacement, Step;
    RewrittenLine(lines, i);
    SameAt(lines, i);
    SameAt(lines, j);
    ElifStep(Rewritten(lines), i);
    BlocksGrow(Rewritten(lines), i + 1, j, BlockOf(lines, i));
  }

  /** The same as the scan sees it at the line: an open "PLATFORM_LINUX is defined" without any #elif. */
  ghost predicate PlatformElse(lines: seq<Line>, i: nat) {
    && Matched(lines, i) && lines[i] == Else(Some(WINDOWS))
    && BlockAt(lines, i).kind.Defined? && BlockAt(lines, i).macros == [LINUX] && !BlockAt(lines, i).hasElif
  }

  lemma {:induction false} ComplexIsElif(lines: seq<Line>, n: nat, b: nat)
    requires n <= |lines| && b < |Scan(lines, n).blocks|
    ensures Scan(lines, n).blocks[b].complexElif ==> Scan(lines, n).blocks[b].hasElif
    decreases n
  {
    if n > 0 && b < |Scan(lines, n - 1).blocks| {
      ComplexIsElif(lines, n - 1, b);
    }
  }

  /** After the #else of a balanced block its chain is complete. */
  lemma {:induction false} ChainIsComplete(lines: seq<Line>, i: nat)
    requires Balanced(lines) && Matched(lines, i) && lines[i].Else?
    ensures FinalMacros(lines, i) == BlockAt(lines, i).macros
  {
    ElseStep(lines, i);
    ElseIsLast(lines, i + 1, |lines|, BlockOf(lines, i));
  }

  lemma {:induction false} ConvertedIffPlatformElse(lines: seq<Line>, i: nat)
    requires Balanced(lines)
    ensures Converted(lines, i) <==> PlatformElse(lines, i)
  {
    if Matched(lines, i) && lines[i].Else? {
      ChainIsComplete(lines, i);
      ComplexIsElif(lines, i, BlockOf(lines, i));
      if Converted(lines, i) {
        OnlyMacro(lines, i);
      }
    }
  }

  /**
   On balanced input one pass is enough exactly when no #else labelled PLATFORM_WINDOWS
   closes a chain that tests PLATFORM_LINUX alone.
   */
  lemma {:induction false} OnePassIffNoPlatformElse(lines: seq<Line>)
    requires Balanced(lines)
    ensures Fixes(Rewritten(lines)) == map[] <==> forall i: nat :: !PlatformElse(lines, i)
  {
    forall i: nat ensures Converted(lines, i) <==> PlatformElse(lines, i) {
      ConvertedIffPlatformElse(lines, i);
    }
    if NoneConverted(lines) {
      OnePassIsEnough(lines);
    } else {
      var i: nat :| Converted(lines, i);
      EndChangesAgain(lines, i);
    }
  }

  /** The smallest file that needs two passes. */
  lemma {:induction false} OnePassMayNotBeEnough()
    ensures var lines := [IfDefined(LINUX), Else(Some(WINDOWS)), Endif(Some(LINUX))];
      Balanced(lines) && Fixes(Rewritten(lines)) != map[]
  {
    var lines := [IfDefined(LINUX), Else(Some(WINDOWS)), Endif(Some(LINUX))];
    var b := Block(Defined, "", [LINUX], false, false, false);
    ExampleScan(lines, b);
    assert PlatformElse(lines, 1);
    OnePassIffNoPlatformElse(lines);
  }

  lemma {:induction false} ExampleScan(lines: seq<Line>, b: Block)
    requires lines == [IfDefined(LINUX), Else(Some(WINDOWS)), Endif(Some(LINUX))]
    requires b == Block(Defined, "", [LINUX], false, false, false)
    ensures Scan(lines, 0) == Scanned([], [])
    ensures Scan(lines, 1) == Scanned([b], [0])
    ensures Scan(lines, 2) == Scanned([b.(hasElse := true)], [0])
    ensures Scan(lines, 3) == Scanned([b.(hasElse := true)], [])
  {
  }

  /** A balanced file stays balanced. */
  lemma {:induction false} StaysBalanced(lines: seq<Line>)
    requires Balanced(lines)
    ensures Balanced(Rewritten(lines))
  {
    forall i: nat | i < |lines| ensures AcceptableAt(Rewritten(lines), i) {
      assert AcceptableAt(lines, i);
      RewrittenLine(lines, i);
      RewrittenScan(lines, i);
    }
    RewrittenScan(lines, |lines|);
  }
}
