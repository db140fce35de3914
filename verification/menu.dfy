/**
 The path texts the patch menus build, and the proof that each of them resolves to
 exactly the field and address the menu is about to edit.
 */
module Menu {
  import opened Base
  import opened Meta
  import opened Json
  import opened Paths
  import opened PathText
  import Hex
  import Registry

  // ------------------------------------------------------------ decimal digits

  function DigitChar(v: int): CChar
    requires 0 <= v < 10
  {
    ('0' as int + v) as char
  }

  /** The text printf writes for an unsigned number. */
  function Decimal(n: nat): CString {
    if n < 10 then [DigitChar(n)] else Decimal(n / 10) + [DigitChar(n % 10)]
  }

  lemma {:induction false} DecimalReadsBack(n: nat)
    ensures Decimal(n) != [] && AllDigits(Decimal(n)) && DecimalValue(Decimal(n)) == n
  {
    var digits := Decimal(n);
    if n >= 10 {
      DecimalReadsBack(n / 10);
      assert digits[..|digits| - 1] == Decimal(n / 10);
    } else {
      assert digits[..0] == [];
    }
  }

  function Pow10(k: nat): nat {
    if k == 0 then 1 else 10 * Pow10(k - 1)
  }

  lemma {:induction false} DecimalLength(n: nat, k: nat)
    requires k > 0 && n < Pow10(k)
    ensures |Decimal(n)| <= k
  {
    if n >= 10 {
      assert k > 1;
      DecimalLength(n / 10, k - 1);
    }
  }

  // ------------------------------------------------------------- path building

  /** The bytes of the buffer an index is printed into. */
  const INDEX_BUFFER: nat := 8 * 3 + 3

  /** Copies path, separator, suffix and terminator into a new buffer; refuses sizes beyond size_t. */
  method AppendPath(path: CString, separator: CString, suffix: CString) returns (r: Outcome<CString>)
    ensures r ==
      if |path| + |separator| + |suffix| + 1 > SIZE_MAX then Failure(OutOfRange)
      else Success(path + separator + suffix)
  {
    if |path| > SIZE_MAX - |separator| || |path| + |separator| > SIZE_MAX - |suffix|
       || |path| + |separator| + |suffix| == SIZE_MAX {
      return Failure(OutOfRange);
    }
    var dest := new char[|path| + |separator| + |suffix| + 1];
    Hex.Append(dest, 0, [], path);
    Hex.Append(dest, |path|, path, separator);
    Hex.Append(dest, |path| + |separator|, path + separator, suffix);
    var text := path + separator + suffix;
    dest[|text|] := '\0';
    assert dest[..|text|] == text;
    return Success(dest[..dest.Length - 1]);
  }

  function FieldPath(path: CString, name: CString): CString {
    if path == [] then name else path + ['.'] + name
  }

  function IndexPath(path: CString, index: nat): CString {
    path + (['['] + Decimal(index) + [']'])
  }

  method AppendFieldPath(path: CString, name: CString) returns (r: Outcome<CString>)
    ensures r ==
      if |FieldPath(path, name)| + 1 > SIZE_MAX then Failure(OutOfRange) else Success(FieldPath(path, name))
  {
    var separator: CString := if path == [] then [] else ['.'];
    r := AppendPath(path, separator, name);
    assert path + separator + name == FieldPath(path, name);
  }

  /** The index never overflows the print buffer, so only the path length can be out of range. */
  method AppendIndexPath(path: CString, index: Size) returns (r: Outcome<CString>)
    ensures r ==
      if |IndexPath(path, index)| + 1 > SIZE_MAX then Failure(OutOfRange) else Success(IndexPath(path, index))
  {
    var suffix: CString := ['['] + Decimal(index) + [']'];
    assert Pow10(5) == 100_000 && Pow10(10) == 10_000_000_000 && Pow10(15) == 1_000_000_000_000_000;
    assert Pow10(20) == 100_000_000_000_000_000_000;
    DecimalLength(index, 20);
    assert |suffix| < INDEX_BUFFER;  // the range error of snprintf is never taken
    r := AppendPath(path, [], suffix);
    assert path + [] + suffix == IndexPath(path, index);
  }

  // ---------------------------------------------------------------- the menus

  /** A field picked in a structure menu, and an element picked in its array menu. */
  datatype Choice = Choice(field: nat, element: Option<nat>)

  /** The field opens an array menu: neither text, nor a single value, nor edited as hex. */
  predicate HasArrayMenu(f: Field) {
    !f.kind.CharArray? && f.elementCount > 1 && !AsHexText(f)
  }

  /** The choices can be made one after the other, starting in the menu of descriptor d. */
  ghost predicate Selectable(g: Graph, d: Ref, choices: seq<Choice>, k: nat)
    requires Closed(g) && d < |g| && ValidWithin(g, d, k)
    decreases k
  {
    && choices != []
    && var c := choices[0];
    && c.field < |Fields(g, d)|
    && var f := Fields(g, d)[c.field];
    && (c.element.Some? ==> HasArrayMenu(f) && c.element.value < f.elementCount)
    && (|choices| > 1 ==>
        && f.kind.Struct? && (HasArrayMenu(f) ==> c.element.Some?)
        && Selectable(g, f.nested.value, choices[1..], k - 1))
  }

  function ChoicePath(path: CString, name: CString, element: Option<nat>): CString {
    if element.None? then FieldPath(path, name) else IndexPath(FieldPath(path, name), element.value)
  }

  /** The path text the menus have built after the choices, starting from `path`. */
  ghost function MenuText(g: Graph, d: Ref, path: CString, choices: seq<Choice>, k: nat): CString
    requires Closed(g) && d < |g| && ValidWithin(g, d, k) && Selectable(g, d, choices, k)
    decreases k
  {
    var c := choices[0];
    var f := Fields(g, d)[c.field];
    var here := ChoicePath(path, f.name.value, c.element);
    if |choices| == 1 then here else MenuText(g, f.nested.value, here, choices[1..], k - 1)
  }

  /** What the menus are about to edit after the choices, by pointer arithmetic alone. */
  ghost function MenuTarget(g: Graph, d: Ref, address: nat, choices: seq<Choice>, k: nat): Target
    requires Closed(g) && d < |g| && ValidWithin(g, d, k) && Selectable(g, d, choices, k)
    decreases k
  {
    var c := choices[0];
    var f := Fields(g, d)[c.field];
    var value := At(f, address, Element(c.element));
    if |choices| == 1 then Target(d, c.field, c.element, value)
    else MenuTarget(g, f.nested.value, value, choices[1..], k - 1)
  }

  /** The name is an identifier, and no earlier field of the structure has it. */
  ghost predicate Nameable(fields: seq<Field>, i: nat)
    requires i < |fields|
  {
    && fields[i].name.Some? && Identifier(fields[i].name.value)
    && Registry.FirstField(fields, fields[i].name.value) == Some(i)
  }

  /** Every chosen field can be named in its own structure; other names do not matter. */
  ghost predicate ChoicesNameable(g: Graph, d: Ref, choices: seq<Choice>, k: nat)
    requires Closed(g) && d < |g| && ValidWithin(g, d, k) && Selectable(g, d, choices, k)
    decreases k
  {
    && Nameable(Fields(g, d), choices[0].field)
    && (|choices| > 1 ==> ChoicesNameable(g, Fields(g, d)[choices[0].field].nested.value, choices[1..], k - 1))
  }

  /** A field with an identifier for a name that no other field shares can be named. */
  lemma {:induction false} UniqueIsNameable(fields: seq<Field>, i: nat)
    requires i < |fields| && fields[i].name.Some? && Identifier(fields[i].name.value)
    requires forall j :: 0 <= j < |fields| && j != i ==> fields[j].name != fields[i].name
    ensures Nameable(fields, i)
  {
    assert fields[i].name == Some(fields[i].name.value);
  }

  ghost function StepsOf(g: Graph, d: Ref, choices: seq<Choice>, k: nat): (steps: seq<Step>)
    requires Closed(g) && d < |g| && ValidWithin(g, d, k) && Selectable(g, d, choices, k)
    requires ChoicesNameable(g, d, choices, k)
    ensures |steps| == |choices| && StepsOk(steps)
    decreases k
  {
    var c := choices[0];
    var f := Fields(g, d)[c.field];
    var first := StepFor(f.name.value, c.element);
    if |choices| == 1 then [first] else [first] + StepsOf(g, f.nested.value, choices[1..], k - 1)
  }

  ghost function StepFor(name: CString, element: Option<nat>): (s: Step)
    requires Identifier(name)
    ensures StepOk(s) && StepIndex(s) == element && s.name == name
  {
    if element.None? then Step(name, None)
    else
      DecimalReadsBack(element.value);
      Step(name, Some(Decimal(element.value)))
  }

  /** The text in front of the next name. */
  function Lead(path: CString): CString {
    if path == [] then [] else path + ['.']
  }

  lemma {:induction false} Regroup(a: CString, b: CString, c: CString)
    ensures (a + b) + c == a + (b + c)
  {
  }

  lemma {:induction false} ChoicePathIsStep(path: CString, name: CString, element: Option<nat>)
    requires Identifier(name)
    ensures ChoicePath(path, name, element) ==
      Lead(path) + (name + IndexText(StepFor(name, element).digits))
    ensures ChoicePath(path, name, element) != []
  {
    hide Decimal;
    assert FieldPath(path, name) == Lead(path) + name;
    Regroup(Lead(path), name, IndexText(StepFor(name, element).digits));
  }

  lemma {:induction false} PrintOne(s: Step)
    ensures Print([s]) == s.name + IndexText(s.digits)
  {
  }

  lemma {:induction false} DottedJoin(lead: CString, name: CString, index: CString, rest: CString)
    ensures lead + (name + index) + ['.'] + rest == lead + (name + (index + (['.'] + rest)))
  {
  }

  lemma {:induction false} MenuTextIsPrinted(g: Graph, d: Ref, path: CString, choices: seq<Choice>, k: nat)
    requires Closed(g) && d < |g| && ValidWithin(g, d, k) && Selectable(g, d, choices, k)
    requires ChoicesNameable(g, d, choices, k)
    ensures MenuText(g, d, path, choices, k) == Lead(path) + Print(StepsOf(g, d, choices, k))
    decreases k
  {
    var c := choices[0];
    var f := Fields(g, d)[c.field];
    var name := f.name.value;
    var here := ChoicePath(path, name, c.element);
    var first := StepFor(name, c.element);
    ChoicePathIsStep(path, name, c.element);
    if |choices| == 1 {
      PrintOne(first);
    } else {
      var more := StepsOf(g, f.nested.value, choices[1..], k - 1);
      MenuTextIsPrinted(g, f.nested.value, here, choices[1..], k - 1);
      PrintMore(first, more);
      DottedJoin(Lead(path), name, IndexText(first.digits), Print(more));
    }
  }

  lemma {:induction false} FollowIsMenuTarget(g: Graph, d: Ref, address: nat, choices: seq<Choice>, k: nat)
    requires Closed(g) && d < |g| && ValidWithin(g, d, k) && Selectable(g, d, choices, k)
    requires ChoicesNameable(g, d, choices, k)
    ensures Follow(g, d, address, StepsOf(g, d, choices, k), k) == Success(MenuTarget(g, d, address, choices, k))
    decreases k
  {
    var c := choices[0];
    var f := Fields(g, d)[c.field];
    var steps := StepsOf(g, d, choices, k);
    assert StepIndex(steps[0]) == c.element;
    assert FieldOk(g, f, g[d].size);
    if |choices| > 1 {
      FollowIsMenuTarget(g, f.nested.value, At(f, address, Element(c.element)), choices[1..], k - 1);
      assert steps[1..] == StepsOf(g, f.nested.value, choices[1..], k - 1);
    }
  }

  /** Every path text a menu shows resolves to exactly what that menu would edit. */
  lemma {:induction false} MenuPathsResolve(g: Graph, d: Ref, address: nat, choices: seq<Choice>, k: nat)
    requires Closed(g) && d < |g| && ValidWithin(g, d, k) && Selectable(g, d, choices, k)
    requires ChoicesNameable(g, d, choices, k)
    ensures ResolveFrom(g, d, address, MenuText(g, d, [], choices, k), k)
      == Success(MenuTarget(g, d, address, choices, k))
  {
    var steps := StepsOf(g, d, choices, k);
    MenuTextIsPrinted(g, d, [], choices, k);
    assert Lead([]) + Print(steps) == Print(steps);
    ResolveIsFollow(g, d, address, steps, k);
    FollowIsMenuTarget(g, d, address, choices, k);
  }

  lemma {:induction false} MenuTextGrows(g: Graph, d: Ref, path: CString, choices: seq<Choice>, k: nat)
    requires Closed(g) && d < |g| && ValidWithin(g, d, k) && Selectable(g, d, choices, k)
    ensures var here := ChoicePath(path, Fields(g, d)[choices[0].field].name.value, choices[0].element);
      |here| <= |MenuText(g, d, path, choices, k)|
    decreases k
  {
    if |choices| > 1 {
      var f := Fields(g, d)[choices[0].field];
      MenuTextGrows(g, f.nested.value, ChoicePath(path, f.name.value, choices[0].element), choices[1..], k - 1);
    }
  }

  /** The path of one menu entry, built as the menus build it. */
  method EntryPath(path: CString, name: CString, element: Option<nat>) returns (r: Outcome<CString>)
    requires element.Some? ==> element.value <= SIZE_MAX
    ensures r.Success? ==> r.value == ChoicePath(path, name, element)
    ensures r.Failure? ==> r.code == OutOfRange && |ChoicePath(path, name, element)| + 1 > SIZE_MAX
  {
    r := AppendFieldPath(path, name);
    if r.Success? && element.Some? {
      r := AppendIndexPath(r.value, element.value);
    }
  }

  /**
   The descent of the menus for a given series of choices: the path text and the pointer
   move together. Only a path longer than size_t allows can stop it.
   */
  method PatchStruct(g: Graph, d: Ref, address: nat, path: CString, choices: seq<Choice>, ghost k: nat)
    returns (r: Outcome<(CString, Target)>)
    requires Closed(g) && d < |g| && ValidWithin(g, d, k) && Selectable(g, d, choices, k)
    ensures r.Success? ==> r.value == (MenuText(g, d, path, choices, k), MenuTarget(g, d, address, choices, k))
    ensures r.Failure? ==> r.code == OutOfRange && |MenuText(g, d, path, choices, k)| + 1 > SIZE_MAX
    decreases k
  {
    var c := choices[0];
    var f := Fields(g, d)[c.field];
    MenuTextGrows(g, d, path, choices, k);
    var here := EntryPath(path, f.name.value, c.element);
    if here.Failure? {
      return Failure(here.code);
    }
    var value := At(f, address, Element(c.element));
    if |choices| == 1 {
      return Success((here.value, Target(d, c.field, c.element, value)));
    }
    r := PatchStruct(g, f.nested.value, value, here.value, choices[1..], k - 1);
  }
}
