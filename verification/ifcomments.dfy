/**
 The rewriter of #else and #endif comments, on lines already classified by its regular
 expressions: one scan with a stack of blocks, then the fixes.
 */
module IfComments {
  import opened Base

  /** A line as the patterns see it; a comment is None unless the tail is one closed comment. */
  datatype Line =
    | If(negated: bool, macro: string)
    | IfDefined(macro: string)
    | IfOther(condition: string)
    | ElifDefined(macro: string)
    | ElifOther(condition: string)
    | Else(comment: Option<string>)
    | Endif(comment: Option<string>)
    | Text(text: string)

  const LINUX := "PLATFORM_LINUX"

  const WINDOWS := "PLATFORM_WINDOWS"

  // ------------------------------------------------------------ common prefix

  predicate IsPrefix(p: string, s: string) {
    p <= s
  }

  function CommonPrefix(a: string, b: string): (p: string)
    ensures IsPrefix(p, a) && IsPrefix(p, b)
  {
    if a != [] && b != [] && a[0] == b[0] then [a[0]] + CommonPrefix(a[1..], b[1..]) else []
  }

  function CommonPrefixOf(macros: seq<string>): string
    requires macros != []
  {
    if |macros| == 1 then macros[0]
    else CommonPrefix(CommonPrefixOf(macros[..|macros| - 1]), macros[|macros| - 1])
  }

  /** The position after the last underscore, or 0. */
  function AfterUnderscore(s: string): (n: nat)
    ensures n <= |s| && (n > 0 ==> s[n - 1] == '_') && forall i :: n <= i < |s| ==> s[i] != '_'
  {
    if s == [] then 0 else if s[|s| - 1] == '_' then |s| else AfterUnderscore(s[..|s| - 1])
  }

  predicate OnlyUnderscores(s: string) {
    forall i :: 0 <= i < |s| ==> s[i] == '_'
  }

  /** The label for a chain of macros: their meaningful common prefix. */
  function Label(macros: seq<string>): Option<string> {
    if |macros| < 2 then None
    else
      var prefix := CommonPrefixOf(macros);
      var cut := prefix[..AfterUnderscore(prefix)];
      if OnlyUnderscores(cut) then None else Some(cut)
  }

  /** A prefix of every macro that ends in an underscore and is not all underscores. */
  ghost predicate IsLabel(macros: seq<string>, p: string) {
    && (forall i :: 0 <= i < |macros| ==> IsPrefix(p, macros[i]))
    && p != [] && p[|p| - 1] == '_' && !OnlyUnderscores(p)
  }

  lemma {:induction false} CommonPrefixIsLongest(a: string, b: string, p: string)
    requires IsPrefix(p, a) && IsPrefix(p, b)
    ensures IsPrefix(p, CommonPrefix(a, b))
  {
    if p != [] {
      CommonPrefixIsLongest(a[1..], b[1..], p[1..]);
    }
  }

  lemma {:induction false} CommonPrefixOfIsLongest(macros: seq<string>, p: string)
    requires macros != []
    ensures forall i :: 0 <= i < |macros| ==> IsPrefix(CommonPrefixOf(macros), macros[i])
    ensures (forall i :: 0 <= i < |macros| ==> IsPrefix(p, macros[i])) ==> IsPrefix(p, CommonPrefixOf(macros))
    decreases |macros|
  {
    if |macros| > 1 {
      var n := |macros| - 1;
      var before := CommonPrefixOf(macros[..n]);
      CommonPrefixOfIsLongest(macros[..n], p);
      forall i | 0 <= i < |macros| ensures IsPrefix(CommonPrefixOf(macros), macros[i]) {
        if i < n {
          assert IsPrefix(before, macros[..n][i]);
        }
      }
      if forall i :: 0 <= i < |macros| ==> IsPrefix(p, macros[i]) {
        assert forall i :: 0 <= i < n ==> IsPrefix(p, macros[..n][i]);
        CommonPrefixIsLongest(before, macros[n], p);
      }
    }
  }

  /** The label is the longest one there is, and there is none only when none exists. */
  lemma {:induction false} LabelIsLongest(macros: seq<string>, p: string)
    requires |macros| >= 2
    ensures Label(macros).Some? ==> IsLabel(macros, Label(macros).value)
    ensures IsLabel(macros, p) ==> Label(macros).Some? && |p| <= |Label(macros).value|
  {
    var prefix := CommonPrefixOf(macros);
    CommonPrefixOfIsLongest(macros, p);
    var cut := prefix[..AfterUnderscore(prefix)];
    forall i | 0 <= i < |macros| ensures IsPrefix(cut, macros[i]) {
      assert IsPrefix(prefix, macros[i]);
    }
    if IsLabel(macros, p) {
      assert prefix[|p| - 1] == '_';
      assert p == prefix[..|p|];
      var i :| 0 <= i < |p| && p[i] != '_';
      assert cut[i] == p[i];
    }
  }

  lemma {:induction false} CommonPrefixStops(a: string, b: string, n: nat)
    requires n <= |a| && n <= |b| && (forall k :: 0 <= k < n ==> a[k] == b[k])
    requires n == |a| || n == |b| || a[n] != b[n]
    ensures CommonPrefix(a, b) == a[..n]
    decreases n
  {
    if n > 0 {
      CommonPrefixStops(a[1..], b[1..], n - 1);
    }
  }

  method CommonMacroPrefix(macros: seq<string>) returns (r: Option<string>)
    ensures r == Label(macros)
  {
    if |macros| < 2 {
      return None;
    }
    var prefix := macros[0];
    var n := 1;
    assert macros[..1] == [macros[0]];
    while n < |macros|
      invariant 1 <= n <= |macros|
      invariant prefix == CommonPrefixOf(macros[..n])
    {
      var macro := macros[n];
      var limit := if |prefix| < |macro| then |prefix| else |macro|;
      var index := 0;
      while index < limit && prefix[index] == macro[index]
        invariant 0 <= index <= limit
        invariant forall k :: 0 <= k < index ==> prefix[k] == macro[k]
      {
        index := index + 1;
      }
      CommonPrefixStops(prefix, macro, index);
      assert macros[..n + 1][..n] == macros[..n];
      prefix := prefix[..index];
      if prefix == [] {
        EmptyPrefixStays(macros, n + 1);
        return None;
      }
      n := n + 1;
    }
    assert macros[..n] == macros;
    var boundary := AfterUnderscore(prefix);
    if boundary == 0 {
      return None;
    }
    prefix := prefix[..boundary];
    return if OnlyUnderscores(prefix) then None else Some(prefix);
  }

  lemma {:induction false} EmptyPrefixStays(macros: seq<string>, n: nat)
    requires 1 <= n <= |macros| && CommonPrefixOf(macros[..n]) == []
    ensures CommonPrefixOf(macros) == []
    decreases |macros| - n
  {
    if n < |macros| {
      assert macros[..n + 1][..n] == macros[..n];
      EmptyPrefixStays(macros, n + 1);
    } else {
      assert macros[..n] == macros;
    }
  }

  // ------------------------------------------------------------------ the scan

  datatype BlockKind = Ifdef | Ifndef | Defined | Other

  datatype Block = Block(
    kind: BlockKind,
    macro: string,
    macros: seq<string>,
    hasElse: bool,
    hasElif: bool,
    complexElif: bool)

  /**
   Every block dictionary ever created, and the stack of the open ones. Blocks are
   referred to by position because the information kept for an #else shares the list of
   macros with its block.
   */
  datatype Scanned = Scanned(blocks: seq<Block>, stack: seq<nat>) {
    ghost predicate Ok() {
      && (forall i :: 0 <= i < |stack| ==> stack[i] < |blocks|)
      && (forall b :: 0 <= b < |blocks| && blocks[b].kind.Defined? ==> blocks[b].macros != [])
      && Distinct(stack)
    }

    predicate Open() {
      stack != []
    }

    function Top(): nat
      requires Open()
    {
      stack[|stack| - 1]
    }
  }

  function Pushed(s: Scanned, b: Block): Scanned {
    Scanned(s.blocks + [b], s.stack + [|s.blocks|])
  }

  /** One line of the scan; #elif, #else and #endif outside any block are skipped. */
  function Step(s: Scanned, line: Line): (r: Scanned)
    requires s.Ok()
    ensures r.Ok() && |s.blocks| <= |r.blocks|
  {
    match line
    case If(negated, macro) => Pushed(s, Block(if negated then Ifndef else Ifdef, macro, [], false, false, false))
    case IfDefined(macro) => Pushed(s, Block(Defined, "", [macro], false, false, false))
    case IfOther(_) => Pushed(s, Block(Other, "", [], false, false, false))
    case ElifDefined(macro) =>
      if s.Open() && s.blocks[s.Top()].kind.Defined? then
        var top := s.blocks[s.Top()];
        s.(blocks := s.blocks[s.Top() := top.(hasElif := true, macros := top.macros + [macro])])
      else s
    case ElifOther(_) =>
      if s.Open() && s.blocks[s.Top()].kind.Defined? then
        s.(blocks := s.blocks[s.Top() := s.blocks[s.Top()].(hasElif := true, complexElif := true)])
      else s
    case Else(_) =>
      if s.Open() then s.(blocks := s.blocks[s.Top() := s.blocks[s.Top()].(hasElse := true)]) else s
    case Endif(_) =>
      if s.Open() then s.(stack := s.stack[..|s.stack| - 1]) else s
    case Text(_) => s
  }

  /** The state after the first n lines. */
  function Scan(lines: seq<Line>, n: nat): (s: Scanned)
    requires n <= |lines|
    ensures s.Ok()
  {
    if n == 0 then Scanned([], []) else Step(Scan(lines, n - 1), lines[n - 1])
  }

  // ----------------------------------------------------------------- the fixes

  function Negations(macros: seq<string>): string
    requires macros != []
  {
    if |macros| == 1 then "!" + macros[0]
    else Negations(macros[..|macros| - 1]) + " && !" + macros[|macros| - 1]
  }

  /** The replacement of an #else, given its block when it was reached and the block's final macros. */
  function FixElse(b: Block, macros: seq<string>, comment: Option<string>): Option<Line>
    requires b.kind.Defined? ==> macros != []
  {
    match b.kind
    case Ifdef => Fix(comment, Some("!" + b.macro))
    case Ifndef => Fix(comment, Some(b.macro))
    case Defined =>
      if b.complexElif then Fix(comment, None)
      else if macros == [LINUX] && comment == Some(WINDOWS) then Some(ElifDefined(WINDOWS))
      else Fix(comment, Some(if b.hasElif then Negations(macros) else "!" + macros[0]))
    case Other => None
  }

  /** An #else whose comment is not the expected one gets it. */
  function Fix(comment: Option<string>, expected: Option<string>): Option<Line> {
    if comment == expected then None else Some(Else(expected))
  }

  /** The comment an #endif must carry, or None where the rewriter leaves it alone. */
  function ExpectedAtEnd(b: Block, macros: seq<string>): Option<string>
    requires b.kind.Defined? ==> macros != []
  {
    match b.kind
    case Ifdef => Some(b.macro)
    case Ifndef => Some(b.macro)
    case Defined => if b.complexElif then None else if b.hasElif then Label(macros) else Some(macros[0])
    case Other => None
  }

  function FixEndif(b: Block, macros: seq<string>, comment: Option<string>): Option<Line>
    requires b.kind.Defined? ==> macros != []
  {
    if b.kind.Other? || comment == ExpectedAtEnd(b, macros) then None else Some(Endif(ExpectedAtEnd(b, macros)))
  }

  // ------------------------------------------------------------- the rewriting

  /** What later lines may do to a block: nothing but extend its chain and raise its flags. */
  ghost predicate GrownFrom(a: Block, b: Block) {
    && b.kind == a.kind && b.macro == a.macro && a.macros <= b.macros
    && (a.hasElse ==> b.hasElse) && (a.hasElif ==> b.hasElif) && (a.complexElif ==> b.complexElif)
  }

  lemma {:induction false} StepGrows(s: Scanned, line: Line, b: nat)
    requires s.Ok() && b < |s.blocks|
    ensures b < |Step(s, line).blocks| && GrownFrom(s.blocks[b], Step(s, line).blocks[b])
  {
  }

  lemma {:induction false} BlocksGrow(lines: seq<Line>, n: nat, m: nat, b: nat)
    requires n <= m <= |lines| && b < |Scan(lines, n).blocks|
    ensures b < |Scan(lines, m).blocks| && GrownFrom(Scan(lines, n).blocks[b], Scan(lines, m).blocks[b])
    decreases m - n
  {
    hide Step;
    if n < m {
      BlocksGrow(lines, n, m - 1, b);
      StepGrows(Scan(lines, m - 1), lines[m - 1], b);
    }
  }

  /** A line inside some block. */
  predicate Matched(lines: seq<Line>, i: nat) {
    i < |lines| && Scan(lines, i).Open()
  }

  /** The number of the innermost block at a line. */
  function BlockOf(lines: seq<Line>, i: nat): (b: nat)
    requires Matched(lines, i)
    ensures b < |Scan(lines, i).blocks|
  {
    Scan(lines, i).Top()
  }

  /** That block as the line finds it. */
  function BlockAt(lines: seq<Line>, i: nat): Block
    requires Matched(lines, i)
  {
    Scan(lines, i).blocks[BlockOf(lines, i)]
  }

  /** All the macros its chain ever gets. */
  function FinalMacros(lines: seq<Line>, i: nat): (macros: seq<string>)
    requires Matched(lines, i)
    ensures BlockAt(lines, i).macros <= macros
    ensures BlockAt(lines, i).kind.Defined? ==> macros != []
  {
    BlocksGrow(lines, i, |lines|, BlockOf(lines, i));
    Scan(lines, |lines|).blocks[BlockOf(lines, i)].macros
  }

  function Replacement(lines: seq<Line>, i: nat): (r: Option<Line>)
    requires i < |lines|
    ensures r.Some? ==> (lines[i].Else? || lines[i].Endif?) && r.value != lines[i]
  {
    if !Matched(lines, i) then None
    else
      match lines[i]
      case Else(comment) => FixElse(BlockAt(lines, i), FinalMacros(lines, i), comment)
      case Endif(comment) => FixEndif(BlockAt(lines, i), FinalMacros(lines, i), comment)
      case _ => None
  }

  function Fixes(lines: seq<Line>): map<nat, Line> {
    map i: nat | i < |lines| && Replacement(lines, i).Some? :: Replacement(lines, i).value
  }

  function NewLine(lines: seq<Line>, i: nat): Line
    requires i < |lines|
  {
    match Replacement(lines, i)
    case Some(line) => line
    case None => lines[i]
  }

  function Rewritten(lines: seq<Line>): seq<Line> {
    seq(|lines|, i requires 0 <= i < |lines| => NewLine(lines, i))
  }

  /** What the scan keeps about an #else or #endif: its block, as it was there. */
  datatype Found = Found(block: nat, state: Block)

  predicate Wanted(lines: seq<Line>, i: nat, elses: bool) {
    Matched(lines, i) && if elses then lines[i].Else? else lines[i].Endif?
  }

  function FoundAt(lines: seq<Line>, i: nat): Found
    requires Matched(lines, i)
  {
    Found(BlockOf(lines, i), BlockAt(lines, i))
  }

  function FoundUpTo(lines: seq<Line>, n: nat, elses: bool): map<nat, Found> {
    if n == 0 then map[]
    else if Wanted(lines, n - 1, elses) then FoundUpTo(lines, n - 1, elses)[n - 1 := FoundAt(lines, n - 1)]
    else FoundUpTo(lines, n - 1, elses)
  }

  lemma {:induction false} FoundIs(lines: seq<Line>, n: nat, elses: bool, i: nat)
    ensures i in FoundUpTo(lines, n, elses) <==> i < n && Wanted(lines, i, elses)
    ensures i in FoundUpTo(lines, n, elses) ==> FoundUpTo(lines, n, elses)[i] == FoundAt(lines, i)
    decreases n
  {
    if n > 0 {
      FoundIs(lines, n - 1, elses, i);
    }
  }

  /** Whether the recorded block can be looked up among the final ones. */
  predicate Fits(found: Found, blocks: seq<Block>) {
    found.block < |blocks| && (found.state.kind.Defined? ==> blocks[found.block].macros != [])
  }

  /** The fix of a recorded line: its block as it was, with the macros its chain ended up with. */
  function FixOf(line: Line, found: Found, blocks: seq<Block>): Option<Line>
    requires Fits(found, blocks)
  {
    match line
    case Else(comment) => FixElse(found.state, blocks[found.block].macros, comment)
    case Endif(comment) => FixEndif(found.state, blocks[found.block].macros, comment)
    case _ => None
  }

  ghost predicate AllFit(lines: seq<Line>, info: map<nat, Found>, blocks: seq<Block>) {
    forall i: nat :: i in info ==> i < |lines| && Fits(info[i], blocks)
  }

  ghost function FixedUpTo(lines: seq<Line>, info: map<nat, Found>, blocks: seq<Block>, n: nat): map<nat, Line>
    requires AllFit(lines, info, blocks)
  {
    map i: nat | i in info && i < n && FixOf(lines[i], info[i], blocks).Some? :: FixOf(lines[i], info[i], blocks).value
  }

  lemma {:induction false} FoundFix(lines: seq<Line>, elses: bool, i: nat)
    requires Wanted(lines, i, elses)
    ensures Fits(FoundAt(lines, i), Scan(lines, |lines|).blocks)
    ensures FixOf(lines[i], FoundAt(lines, i), Scan(lines, |lines|).blocks) == Replacement(lines, i)
  {
    BlocksGrow(lines, i, |lines|, BlockOf(lines, i));
    assert FinalMacros(lines, i) == Scan(lines, |lines|).blocks[BlockOf(lines, i)].macros;
  }

  lemma {:induction false} AllFound(lines: seq<Line>, elses: bool)
    ensures AllFit(lines, FoundUpTo(lines, |lines|, elses), Scan(lines, |lines|).blocks)
  {
    var info := FoundUpTo(lines, |lines|, elses);
    forall i: nat | i in info ensures i < |lines| && Fits(info[i], Scan(lines, |lines|).blocks) {
      FoundIs(lines, |lines|, elses, i);
      FoundFix(lines, elses, i);
    }
  }

  ghost function FixedOf(lines: seq<Line>, elses: bool): map<nat, Line> {
    AllFound(lines, elses);
    FixedUpTo(lines, FoundUpTo(lines, |lines|, elses), Scan(lines, |lines|).blocks, |lines|)
  }

  lemma {:induction false} FixedIs(lines: seq<Line>, elses: bool, i: nat)
    ensures i in FixedOf(lines, elses) <==> Wanted(lines, i, elses) && Replacement(lines, i).Some?
    ensures i in FixedOf(lines, elses) ==> FixedOf(lines, elses)[i] == Replacement(lines, i).value
  {
    AllFound(lines, elses);
    FoundIs(lines, |lines|, elses, i);
    if Wanted(lines, i, elses) {
      FoundFix(lines, elses, i);
    }
  }

  lemma {:induction false} FixIs(lines: seq<Line>, i: nat)
    ensures i in FixedOf(lines, true) + FixedOf(lines, false) <==> i in Fixes(lines)
    ensures i in Fixes(lines) ==> (FixedOf(lines, true) + FixedOf(lines, false))[i] == Fixes(lines)[i]
  {
    FixedIs(lines, true, i);
    FixedIs(lines, false, i);
  }

  /** The blocks being built: the dictionaries pushed and updated in place by the scan. */
  class Scanner {
    var blocks: seq<Block>
    var stack: seq<nat>

    ghost function State(): Scanned
      reads this
    {
      Scanned(blocks, stack)
    }

    constructor ()
      ensures State() == Scanned([], [])
    {
      blocks, stack := [], [];
    }

    method Push(b: Block)
      modifies this
      ensures State() == Pushed(old(State()), b)
    {
      stack := stack + [|blocks|];
      blocks := blocks + [b];
    }

    method Visit(line: Line)
      requires State().Ok()
      modifies this
      ensures State() == Step(old(State()), line)
    {
      match line
      case If(negated, macro) => Push(Block(if negated then Ifndef else Ifdef, macro, [], false, false, false));
      case IfDefined(macro) => Push(Block(Defined, "", [macro], false, false, false));
      case IfOther(_) => Push(Block(Other, "", [], false, false, false));
      case Text(_) =>
      case _ => if stack != [] { Update(stack[|stack| - 1], line); }
    }

    /** A line of the chain of the innermost block. */
    method Update(top: nat, line: Line)
      requires State().Ok() && State().Open() && top == State().Top()
      requires line.ElifDefined? || line.ElifOther? || line.Else? || line.Endif?
      modifies this
      ensures State() == Step(old(State()), line)
    {
      match line
      case ElifDefined(macro) =>
        if blocks[top].kind.Defined? {
          blocks := blocks[top := blocks[top].(hasElif := true, macros := blocks[top].macros + [macro])];
        }
      case ElifOther(_) =>
        if blocks[top].kind.Defined? {
          blocks := blocks[top := blocks[top].(hasElif := true, complexElif := true)];
        }
      case Else(_) => blocks := blocks[top := blocks[top].(hasElse := true)];
      case Endif(_) => stack := stack[..|stack| - 1];
    }
  }

  /** The first loop: every #else and #endif inside a block, with its block as it was there. */
  method FindDirectives(lines: seq<Line>)
    returns (blocks: seq<Block>, elseInfo: map<nat, Found>, endifInfo: map<nat, Found>)
    ensures blocks == Scan(lines, |lines|).blocks
    ensures elseInfo == FoundUpTo(lines, |lines|, true) && endifInfo == FoundUpTo(lines, |lines|, false)
  {
    hide Step, Replacement;
    var scanner := new Scanner();
    elseInfo, endifInfo := map[], map[];
    for index := 0 to |lines|
      invariant scanner.State() == Scan(lines, index)
      invariant elseInfo == FoundUpTo(lines, index, true) && endifInfo == FoundUpTo(lines, index, false)
    {
      if scanner.stack != [] {
        var top := scanner.stack[|scanner.stack| - 1];
        var found := Found(top, scanner.blocks[top]);
        if lines[index].Else? {
          elseInfo := elseInfo[index := found];
        } else if lines[index].Endif? {
          endifInfo := endifInfo[index := found];
        }
      }
      scanner.Visit(lines[index]);
    }
    blocks := scanner.blocks;
  }

  method Analyze(lines: seq<Line>) returns (fixes: map<nat, Line>)
    ensures fixes == Fixes(lines)
  {
    var blocks, elseInfo, endifInfo := FindDirectives(lines);
    AllFound(lines, true);
    AllFound(lines, false);
    var elses := FixAll(lines, elseInfo, blocks);
    var endifs := FixAll(lines, endifInfo, blocks);
    fixes := elses + endifs;
    forall i: nat ensures i in fixes <==> i in Fixes(lines) ensures i in fixes ==> fixes[i] == Fixes(lines)[i] {
      FixIs(lines, i);
    }
  }

  /** One of the two loops over what was found, in the order it was found. */
  method FixAll(lines: seq<Line>, info: map<nat, Found>, blocks: seq<Block>) returns (fixes: map<nat, Line>)
    requires AllFit(lines, info, blocks)
    ensures fixes == FixedUpTo(lines, info, blocks, |lines|)
  {
    fixes := map[];
    for index := 0 to |lines|
      invariant fixes == FixedUpTo(lines, info, blocks, index)
    {
      if index in info {
        var fix := FixOf(lines[index], info[index], blocks);
        if fix.Some? {
          fixes := fixes[index := fix.value];
        }
      }
    }
  }

  function Patched(lines: seq<Line>, fixes: map<nat, Line>): seq<Line> {
    seq(|lines|, i requires 0 <= i < |lines| => if i in fixes then fixes[i] else lines[i])
  }

  /** The fixes fall on distinct lines, so the order they are applied in does not matter. */
  method ApplyFixes(lines: seq<Line>, fixes: map<nat, Line>) returns (newLines: seq<Line>)
    ensures newLines == Patched(lines, fixes)
  {
    newLines := lines;
    for index := 0 to |lines|
      invariant |newLines| == |lines|
      invariant forall i :: 0 <= i < |lines| ==> newLines[i] == if i < index && i in fixes then fixes[i] else lines[i]
    {
      if index in fixes {
        newLines := newLines[index := fixes[index]];
      }
    }
  }

  method Rewrite(lines: seq<Line>) returns (newLines: seq<Line>)
    ensures newLines == Rewritten(lines)
  {
    var fixes := Analyze(lines);
    newLines := ApplyFixes(lines, fixes);
    forall i: nat | i < |lines| ensures newLines[i] == Rewritten(lines)[i] {
      FixedLine(lines, i);
    }
  }

  lemma {:induction false} FixedLine(lines: seq<Line>, i: nat)
    requires i < |lines|
    ensures NewLine(lines, i) == if i in Fixes(lines) then Fixes(lines)[i] else lines[i]
  {
  }
}
