/**
 What one segment of a path means, told by character codes and by the fields of the
 descriptor, for every segment and whatever follows it.
 */
module PathMeaning {
  import opened Base
  import opened Meta
  import opened Json
  import opened Paths
  import opened PathText
  import Registry

  predicate DigitCode(n: int) {
    48 <= n <= 57
  }

  /** A letter or an underscore. */
  predicate LetterCode(n: int) {
    65 <= n <= 90 || 97 <= n <= 122 || n == 95
  }

  ghost predicate IsName(name: CString) {
    && name != [] && LetterCode(name[0] as int)
    && forall i :: 0 <= i < |name| ==> LetterCode(name[i] as int) || DigitCode(name[i] as int)
  }

  ghost predicate DigitCodes(digits: CString) {
    forall i :: 0 <= i < |digits| ==> DigitCode(digits[i] as int)
  }

  ghost predicate IsNumber(digits: CString) {
    digits != [] && DigitCodes(digits)
  }

  function PowerOfTen(n: nat): nat {
    if n == 0 then 1 else 10 * PowerOfTen(n - 1)
  }

  /** The value of a number: each digit counts a power of ten. */
  ghost function Positional(digits: CString): nat
    requires DigitCodes(digits)
  {
    if digits == [] then 0 else (digits[0] as int - 48) * PowerOfTen(|digits| - 1) + Positional(digits[1..])
  }

  ghost function NumberOf(digits: Option<CString>): nat
    requires digits.Some? ==> IsNumber(digits.value)
  {
    if digits.Some? then Positional(digits.value) else 0
  }

  function Bracketed(digits: Option<CString>): CString {
    match digits
    case None => []
    case Some(number) => "[" + number + "]"
  }

  lemma {:induction false} PositionalOfMore(digits: CString, c: CChar)
    requires DigitCodes(digits) && DigitCode(c as int)
    ensures Positional(digits + [c]) == 10 * Positional(digits) + (c as int - 48)
    decreases |digits|
  {
    if digits != [] {
      PositionalOfMore(digits[1..], c);
      assert (digits + [c])[1..] == digits[1..] + [c];
      Distributes(digits[0] as int - 48, PowerOfTen(|digits| - 1));
    } else {
      assert (digits + [c])[1..] == [];
    }
  }

  lemma {:induction false} Distributes(a: int, p: int)
    ensures a * (10 * p) == 10 * (a * p)
  {
  }

  lemma {:induction false} DecimalIsPositional(digits: CString)
    requires AllDigits(digits)
    ensures DigitCodes(digits) && DecimalValue(digits) == Positional(digits)
    decreases |digits|
  {
    if digits != [] {
      var n := |digits| - 1;
      DecimalIsPositional(digits[..n]);
      PositionalOfMore(digits[..n], digits[n]);
      assert digits[..n] + [digits[n]] == digits;
    }
  }

  lemma {:induction false} NameIs(name: CString)
    ensures IsName(name) <==> Identifier(name)
  {
  }

  lemma {:induction false} NumberIs(digits: CString)
    ensures IsNumber(digits) <==> digits != [] && AllDigits(digits)
  {
  }

  /** A path that does not start with a letter or an underscore is malformed. */
  lemma {:induction false} StartsWithAName(g: Graph, d: Ref, address: nat, text: CString, k: nat)
    requires Closed(g) && d < |g| && ValidWithin(g, d, k)
    requires text == [] || !LetterCode(text[0] as int)
    ensures ResolveFrom(g, d, address, text, k) == Failure(InvalidArgument)
  {
  }

  ghost predicate FirstNamed(fields: seq<Field>, name: CString, i: nat) {
    i < |fields| && fields[i].name == Some(name) && forall j :: 0 <= j < i ==> fields[j].name != Some(name)
  }

  lemma {:induction false} SegmentSplits(name: CString, digits: Option<CString>, tail: CString)
    requires IsName(name) && (digits.Some? ==> IsNumber(digits.value))
    requires tail == [] || tail[0] == '.'
    ensures var text := name + Bracketed(digits) + tail;
      && text != [] && IdentStart(text[0]) && IdentLength(text) == |name| && text[..|name|] == name
      && text[|name|..] == Bracketed(digits) + tail
  {
    var rest := Bracketed(digits) + tail;
    hide IdentLength;
    NameIs(name);
    NameEnds(name, rest);
    assert name + Bracketed(digits) + tail == name + rest;
    assert rest != [] ==> rest[0] == '[' || rest[0] == '.';
  }

  lemma {:induction false} IndexSays(digits: Option<CString>, tail: CString)
    requires digits.Some? ==> IsNumber(digits.value)
    requires tail == [] || tail[0] == '.'
    ensures IndexOf(Bracketed(digits) + tail) ==
      match digits
      case None => Absent
      case Some(number) =>
        if Positional(number) > SIZE_MAX then Refused(OutOfRange) else Index(Positional(number), tail)
  {
    if digits.Some? {
      NumberIs(digits.value);
      DecimalIsPositional(digits.value);
      IndexReadsBack(digits.value, tail);
      assert Bracketed(digits) + tail == ['['] + digits.value + [']'] + tail;
    } else {
      assert Bracketed(digits) + tail == tail;
    }
  }

  lemma {:induction false} UnknownName(
      g: Graph, d: Ref, address: nat, name: CString, digits: Option<CString>, tail: CString, k: nat)
    requires Closed(g) && d < |g| && ValidWithin(g, d, k)
    requires IsName(name) && (digits.Some? ==> IsNumber(digits.value)) && (tail == [] || tail[0] == '.')
    requires forall j :: 0 <= j < |Fields(g, d)| ==> Fields(g, d)[j].name != Some(name)
    ensures ResolveFrom(g, d, address, name + Bracketed(digits) + tail, k) == Failure(NotFound)
  {
    SegmentSplits(name, digits, tail);
  }

  /**
   A segment `name` or `name[number]` means the first field of that name, and the element of
   that number at so many element sizes behind it; an element that is not there, or any
   element of a text, is out of range. A dot goes on in the nested structure at that place,
   and may follow only where the place is a single structure.
   */
  lemma {:induction false} SegmentMeans(
      g: Graph, d: Ref, address: nat, name: CString, digits: Option<CString>, tail: CString, i: nat, k: nat)
    requires Closed(g) && d < |g| && ValidWithin(g, d, k)
    requires IsName(name) && (digits.Some? ==> IsNumber(digits.value)) && (tail == [] || tail[0] == '.')
    requires FirstNamed(Fields(g, d), name, i)
    ensures ResolveFrom(g, d, address, name + Bracketed(digits) + tail, k) ==
      var f := Fields(g, d)[i];
      var number := NumberOf(digits);
      var place := address + f.offset + number * f.elementSize;
      if digits.Some? && (f.kind.CharArray? || number >= f.elementCount) then Failure(OutOfRange)
      else if tail == [] then Success(Target(d, i, if digits.Some? then Some(number) else None, place))
      else if !f.kind.Struct? || (digits.None? && f.elementCount > 1) then Failure(InvalidArgument)
      else ResolveFrom(g, f.nested.value, place, tail[1..], k - 1)
  {
    hide ResolveFrom, ContinueFrom, NumberOf, IsName, IsNumber;
    var f := Fields(g, d)[i];
    var index := if digits.Some? then Some(NumberOf(digits)) else None;
    var place := address + f.offset + NumberOf(digits) * f.elementSize;
    SegmentContinues(g, d, address, name, digits, tail, i, k);
    Continues(g, d, i, index, place, tail, k);
  }

  lemma {:induction false} SegmentContinues(
      g: Graph, d: Ref, address: nat, name: CString, digits: Option<CString>, tail: CString, i: nat, k: nat)
    requires Closed(g) && d < |g| && ValidWithin(g, d, k)
    requires IsName(name) && (digits.Some? ==> IsNumber(digits.value)) && (tail == [] || tail[0] == '.')
    requires FirstNamed(Fields(g, d), name, i)
    ensures ResolveFrom(g, d, address, name + Bracketed(digits) + tail, k) ==
      var f := Fields(g, d)[i];
      var number := NumberOf(digits);
      if digits.Some? && (f.kind.CharArray? || number >= f.elementCount) then Failure(OutOfRange)
      else ContinueFrom(g, d, i, if digits.Some? then Some(number) else None,
                        address + f.offset + number * f.elementSize, tail, k)
  {
    hide ResolveFrom, ContinueFrom, IndexOf, Positional, IsName, ValidWithin;
    SegmentResolves(g, d, address, name, digits, tail, i, k);
    IndexSays(digits, tail);
  }

  lemma {:induction false} Continues(g: Graph, d: Ref, i: nat, index: Option<nat>, place: nat, tail: CString, k: nat)
    requires Closed(g) && d < |g| && ValidWithin(g, d, k) && i < |Fields(g, d)|
    requires tail == [] || tail[0] == '.'
    ensures ContinueFrom(g, d, i, index, place, tail, k) ==
      var f := Fields(g, d)[i];
      if tail == [] then Success(Target(d, i, index, place))
      else if !f.kind.Struct? || (index.None? && f.elementCount > 1) then Failure(InvalidArgument)
      else ResolveFrom(g, f.nested.value, place, tail[1..], k - 1)
  {
    hide ResolveFrom;
    if |tail| == 1 && Fields(g, d)[i].kind.Struct? {
      StartsWithAName(g, Fields(g, d)[i].nested.value, place, [], k - 1);
      assert tail[1..] == [];
    }
  }

  lemma {:induction false} SegmentResolves(
      g: Graph, d: Ref, address: nat, name: CString, digits: Option<CString>, tail: CString, i: nat, k: nat)
    requires Closed(g) && d < |g| && ValidWithin(g, d, k)
    requires IsName(name) && (digits.Some? ==> IsNumber(digits.value)) && (tail == [] || tail[0] == '.')
    requires FirstNamed(Fields(g, d), name, i)
    ensures ResolveFrom(g, d, address, name + Bracketed(digits) + tail, k) ==
      var f := Fields(g, d)[i];
      match IndexOf(Bracketed(digits) + tail)
      case Refused(code) => Failure(code)
      case Absent => ContinueFrom(g, d, i, None, At(f, address, 0), tail, k)
      case Index(v, rest) =>
        if f.kind.CharArray? || v >= f.elementCount then Failure(OutOfRange)
        else ContinueFrom(g, d, i, Some(v), At(f, address, v), rest, k)
  {
    hide ContinueFrom, ValidWithin, IndexOf, Positional, IsName, IdentLength, IdentStart;
    SegmentSplits(name, digits, tail);
    IndexSays(digits, tail);
    assert Registry.FirstField(Fields(g, d), name) == Some(i);
    if digits.None? {
      assert Bracketed(digits) + tail == tail;
    }
  }
}
