/**
 Path texts such as `addresses[0].city`: their resolution to a field and an address,
 the grammar they follow, and the soundness of every address resolved.
 */
module Paths {
  import opened Base
  import opened Meta
  import opened Json
  import Registry

  // --------------------------------------------------------------- characters

  predicate IsDigit(c: char) {
    '0' <= c <= '9'
  }

  predicate IdentStart(c: char) {
    'a' <= c <= 'z' || 'A' <= c <= 'Z' || c == '_'
  }

  predicate IdentPart(c: char) {
    IdentStart(c) || IsDigit(c)
  }

  /** The number of identifier characters a text starts with. */
  function IdentLength(text: CString): (n: nat)
    ensures n <= |text| && (forall i :: 0 <= i < n ==> IdentPart(text[i])) && (n < |text| ==> !IdentPart(text[n]))
  {
    if text == [] || !IdentPart(text[0]) then 0 else 1 + IdentLength(text[1..])
  }

  /** The number of decimal digits a text starts with. */
  function DigitLength(text: CString): (n: nat)
    ensures n <= |text| && (forall i :: 0 <= i < n ==> IsDigit(text[i])) && (n < |text| ==> !IsDigit(text[n]))
  {
    if text == [] || !IsDigit(text[0]) then 0 else 1 + DigitLength(text[1..])
  }

  ghost predicate AllDigits(text: CString) {
    forall i :: 0 <= i < |text| ==> IsDigit(text[i])
  }

  /** The number a digit text denotes in base ten. */
  ghost function DecimalValue(digits: CString): nat
    requires AllDigits(digits)
  {
    if digits == [] then 0
    else 10 * DecimalValue(digits[..|digits| - 1]) + (digits[|digits| - 1] as int - '0' as int)
  }

  lemma {:induction false} PrefixIsNotLarger(digits: CString, n: nat)
    requires AllDigits(digits) && n <= |digits|
    ensures DecimalValue(digits[..n]) <= DecimalValue(digits)
    decreases |digits|
  {
    if n == |digits| {
      assert digits[..n] == digits;
    } else {
      PrefixIsNotLarger(digits[..|digits| - 1], n);
      assert digits[..|digits| - 1][..n] == digits[..n];
    }
  }

  /** One digit more, and a bound for the whole number. */
  lemma {:induction false} NextDigit(run: CString, n: nat, seen: nat)
    requires seen < n <= |run| && AllDigits(run[..n])
    ensures AllDigits(run[..seen]) && AllDigits(run[..seen + 1])
    ensures DecimalValue(run[..seen + 1]) == 10 * DecimalValue(run[..seen]) + (run[seen] as int - '0' as int)
    ensures DecimalValue(run[..seen + 1]) <= DecimalValue(run[..n])
  {
    assert AllDigits(run[..seen + 1]) && AllDigits(run[..seen]) by {
      assert forall i :: 0 <= i <= seen ==> run[i] == run[..n][i];
    }
    assert run[..seen + 1][..seen] == run[..seen];
    PrefixIsNotLarger(run[..n], seen + 1);
    assert run[..n][..seen + 1] == run[..seen + 1];
  }

  // ------------------------------------------------------------ index parsing

  datatype IndexPart = Absent | Index(value: nat, rest: CString) | Refused(code: ErrorCode)

  /** An index in brackets: its decimal value when that fits size_t, and what follows. */
  ghost function IndexOf(text: CString): (r: IndexPart)
    ensures r.Refused? ==> r.code == InvalidArgument || r.code == OutOfRange
  {
    if text == [] || text[0] != '[' then Absent
    else
      var n := DigitLength(text[1..]);
      if n == 0 then Refused(InvalidArgument)
      else if DecimalValue(text[1..][..n]) > SIZE_MAX then Refused(OutOfRange)
      else if |text| == n + 1 || text[n + 1] != ']' then Refused(InvalidArgument)
      else Index(DecimalValue(text[1..][..n]), text[n + 2..])
  }

  /** Parses an index at the cursor; the code is Skipped when there is none. */
  method ParseIndex(text: CString, start: nat) returns (ret: Code, cursor: nat, index: nat)
    requires start <= |text|
    ensures match IndexOf(text[start..])
      case Absent => ret == Skipped && cursor == start
      case Refused(code) => ret == code
      case Index(value, rest) => ret == Ok && index == value && start <= cursor <= |text| && text[cursor..] == rest
  {
    assert DecimalValue([]) == 0;
    hide DecimalValue;
    cursor, index := start, 0;
    if Peek(text, cursor) != '[' {
      return Skipped, start, 0;
    }
    cursor := cursor + 1;
    ghost var run := text[start..][1..];
    ghost var n := DigitLength(run);
    assert run == text[cursor..];
    if !IsDigit(Peek(text, cursor)) {
      assert n == 0;
      return InvalidArgument, start, 0;
    }
    while IsDigit(Peek(text, cursor))
      invariant start + 1 <= cursor <= start + 1 + n <= |text|
      invariant index == DecimalValue(run[..cursor - start - 1]) <= SIZE_MAX
      decreases |text| - cursor
    {
      ghost var seen := cursor - start - 1;
      assert run[seen] == text[cursor];
      var digit := text[cursor] as int - '0' as int;
      NextDigit(run, n, seen);
      if index > (SIZE_MAX - digit) / 10 {
        return OutOfRange, start, 0;
      }
      index := index * 10 + digit;
      cursor := cursor + 1;
    }
    assert cursor == start + 1 + n;
    if Peek(text, cursor) != ']' {
      return InvalidArgument, start, 0;
    }
    assert text[start..][n + 2..] == text[cursor + 1..];
    return Ok, cursor + 1, index;
  }

  // --------------------------------------------------------------- resolution

  /** A field of a descriptor, an element of it if an index was given, and its address. */
  datatype Target = Target(d: Ref, field: nat, index: Option<nat>, address: nat)

  ghost function ResolveFrom(g: Graph, d: Ref, address: nat, text: CString, k: nat): Outcome<Target>
    requires Closed(g) && d < |g| && ValidWithin(g, d, k)
    decreases k, 1
  {
    if text == [] || !IdentStart(text[0]) then Failure(InvalidArgument)
    else
      var n := IdentLength(text);
      match Registry.FirstField(Fields(g, d), text[..n])
      case None => Failure(NotFound)
      case Some(i) =>
        var f := Fields(g, d)[i];
        match IndexOf(text[n..])
        case Refused(code) => Failure(code)
        case Absent => ContinueFrom(g, d, i, None, At(f, address, 0), text[n..], k)
        case Index(v, rest) =>
          if f.kind.CharArray? || v >= f.elementCount then Failure(OutOfRange)
          else ContinueFrom(g, d, i, Some(v), At(f, address, v), rest, k)
  }

  /** What follows a segment: the end, or a dot and a path inside the nested structure. */
  ghost function ContinueFrom(g: Graph, d: Ref, i: nat, index: Option<nat>, address: nat, rest: CString, k: nat): Outcome<Target>
    requires Closed(g) && d < |g| && ValidWithin(g, d, k) && i < |Fields(g, d)|
    decreases k, 0
  {
    var f := Fields(g, d)[i];
    if rest == [] then Success(Target(d, i, index, address))
    else if rest[0] != '.' then Failure(InvalidArgument)
    else if !f.kind.Struct? || (f.elementCount > 1 && index.None?) then Failure(InvalidArgument)
    else if |rest| == 1 then Failure(InvalidArgument)
    else ResolveFrom(g, f.nested.value, address, rest[1..], k - 1)
  }

  method ScanIdent(text: CString, start: nat) returns (cursor: nat)
    requires start < |text| && IdentStart(text[start])
    ensures start < cursor <= |text| && cursor == start + IdentLength(text[start..])
  {
    cursor := start + 1;
    assert text[start..][1..] == text[cursor..];
    while IdentPart(Peek(text, cursor))
      invariant start < cursor <= |text|
      invariant IdentLength(text[start..]) == cursor - start + IdentLength(text[cursor..])
      decreases |text| - cursor
    {
      assert text[cursor..][1..] == text[cursor + 1..];
      cursor := cursor + 1;
    }
  }

  /** What a segment means once its field is known. */
  lemma {:induction false} ResolvedByName(
      g: Graph, d: Ref, address: nat, text: CString, start: nat, i: nat, end: nat, k: nat)
    requires Closed(g) && d < |g| && ValidWithin(g, d, k)
    requires start < end <= |text| && IdentStart(text[start]) && end == start + IdentLength(text[start..])
    requires Registry.FirstField(Fields(g, d), text[start..end]) == Some(i)
    ensures ResolveFrom(g, d, address, text[start..], k) ==
      var f := Fields(g, d)[i];
      match IndexOf(text[end..])
      case Refused(code) => Failure(code)
      case Absent => ContinueFrom(g, d, i, None, At(f, address, 0), text[end..], k)
      case Index(v, rest) =>
        if f.kind.CharArray? || v >= f.elementCount then Failure(OutOfRange)
        else ContinueFrom(g, d, i, Some(v), At(f, address, v), rest, k)
  {
    hide ContinueFrom, IndexOf, IdentStart, IdentLength, ValidWithin;
    assert text[start..][..end - start] == text[start..end];
    assert text[start..][end - start..] == text[end..];
  }

  /** The segment that starts at the cursor, given the field its name denotes. */
  method ResolveIndex(g: Graph, d: Ref, address: nat, text: CString, start: nat, i: nat, end: nat, ghost k: nat)
    returns (r: Outcome<Target>, cursor: nat)
    requires Closed(g) && d < |g| && ValidWithin(g, d, k)
    requires start < end <= |text| && IdentStart(text[start]) && end == start + IdentLength(text[start..])
    requires Registry.FirstField(Fields(g, d), text[start..end]) == Some(i)
    ensures r.Failure? ==> ResolveFrom(g, d, address, text[start..], k) == r
    ensures r.Success? ==>
      && r.value.d == d && r.value.field == i && start < cursor <= |text|
      && ResolveFrom(g, d, address, text[start..], k) ==
         ContinueFrom(g, d, i, r.value.index, r.value.address, text[cursor..], k)
  {
    hide ResolveFrom, ContinueFrom, IndexOf;
    ResolvedByName(g, d, address, text, start, i, end, k);
    var f := Fields(g, d)[i];
    var ret, after, index := ParseIndex(text, end);
    if ret == Ok {
      if f.kind.CharArray? || index >= f.elementCount {
        return Failure(OutOfRange), start;
      }
      return Success(Target(d, i, Some(index), At(f, address, index))), after;
    } else if ret != Skipped {
      return Failure(ret), start;
    }
    return Success(Target(d, i, None, At(f, address, 0))), after;
  }

  /** One segment: a field name, searched through the registry, and an index if there is one. */
  method ResolveSegment(registry: Registry.Index, d: Ref, address: nat, text: CString, start: nat, ghost k: nat)
    returns (r: Outcome<Target>, cursor: nat)
    requires registry.Valid() && d < |registry.graph| && ValidWithin(registry.graph, d, k) && start < |text|
    ensures r.Failure? ==> ResolveFrom(registry.graph, d, address, text[start..], k) == r
    ensures r.Success? ==>
      && r.value.d == d && r.value.field < |Fields(registry.graph, d)| && start < cursor <= |text|
      && ResolveFrom(registry.graph, d, address, text[start..], k) ==
         ContinueFrom(registry.graph, d, r.value.field, r.value.index, r.value.address, text[cursor..], k)
  {
    if !IdentStart(text[start]) {
      return Failure(InvalidArgument), start;
    }
    var end := ScanIdent(text, start);
    assert text[start..][..end - start] == text[start..end];
    var found := registry.FindFieldSegment(d, text[start..end]);
    if found.Failure? {
      return Failure(NotFound), start;
    }
    r, cursor := ResolveIndex(registry.graph, d, address, text, start, found.value, end, k);
  }

  /** The structure a dot at the cursor leads into, if it may follow the segment. */
  method Descend(g: Graph, t: Target, text: CString, cursor: nat, ghost k: nat) returns (next: Option<Ref>)
    requires Closed(g) && t.d < |g| && ValidWithin(g, t.d, k) && t.field < |Fields(g, t.d)| && cursor < |text|
    ensures next.None? ==>
      ContinueFrom(g, t.d, t.field, t.index, t.address, text[cursor..], k) == Failure(InvalidArgument)
    ensures next.Some? ==>
      && next.value < |g| && k > 0 && ValidWithin(g, next.value, k - 1)
      && ContinueFrom(g, t.d, t.field, t.index, t.address, text[cursor..], k) ==
         ResolveFrom(g, next.value, t.address, text[cursor + 1..], k - 1)
  {
    if text[cursor] != '.' {
      return None;
    }
    var f := Fields(g, t.d)[t.field];
    if !f.kind.Struct? || (f.elementCount > 1 && t.index.None?) {
      return None;
    }
    assert text[cursor..][1..] == text[cursor + 1..];
    if cursor + 1 == |text| {
      return None;
    }
    return f.nested;
  }

  /** Where the walk stands after a segment: finished, or at a nested structure. */
  datatype Progress = Finished(result: Outcome<Target>) | Inside(d: Ref, address: nat, cursor: nat)

  /** One round of the walk. */
  method Advance(registry: Registry.Index, d: Ref, address: nat, text: CString, cursor: nat, ghost k: nat)
    returns (p: Progress)
    requires registry.Valid() && d < |registry.graph| && ValidWithin(registry.graph, d, k) && cursor < |text|
    ensures p.Finished? ==> p.result == ResolveFrom(registry.graph, d, address, text[cursor..], k)
    ensures p.Inside? ==>
      && p.d < |registry.graph| && k > 0 && ValidWithin(registry.graph, p.d, k - 1) && cursor < p.cursor <= |text|
      && ResolveFrom(registry.graph, d, address, text[cursor..], k) ==
         ResolveFrom(registry.graph, p.d, p.address, text[p.cursor..], k - 1)
  {
    hide ResolveFrom, ValidWithin;
    var segment, after := ResolveSegment(registry, d, address, text, cursor, k);
    if segment.Failure? || after == |text| {
      return Finished(segment);
    }
    var next := Descend(registry.graph, segment.value, text, after, k);
    if next.None? {
      return Finished(Failure(InvalidArgument));
    }
    return Inside(next.value, segment.value.address, after + 1);
  }

  /** Walks the text segment by segment. */
  method ResolvePath(registry: Registry.Index, d: Ref, instance: nat, text: CString, ghost k: nat)
    returns (r: Outcome<Target>)
    requires registry.Valid() && d < |registry.graph| && ValidWithin(registry.graph, d, k)
    ensures r == ResolveFrom(registry.graph, d, instance, text, k)
  {
    var cursor := 0;
    var current: nat, address: nat := d, instance;
    ghost var depth := k;
    ghost var goal := ResolveFrom(registry.graph, d, instance, text, k);
    assert text[0..] == text;
    while cursor < |text|
      invariant 0 <= cursor <= |text|
      invariant current < |registry.graph| && ValidWithin(registry.graph, current, depth)
      invariant goal == ResolveFrom(registry.graph, current, address, text[cursor..], depth)
      decreases |text| - cursor
    {
      var p := Advance(registry, current, address, text, cursor, depth);
      if p.Finished? {
        return p.result;
      }
      current, address, cursor, depth := p.d, p.address, p.cursor, depth - 1;
    }
    return Failure(InvalidArgument);
  }

  /** The public resolver: validates, through the cache, and then walks the path. */
  method Resolve(registry: Registry.Index, d: Ref, instance: nat, text: CString) returns (r: Outcome<Target>)
    requires registry.Valid() && d < |registry.graph|
    ensures r ==
      if text == [] then Failure(InvalidArgument)
      else if !Valid(registry.graph, d) then Failure(CorruptDescriptor)
      else ResolveFrom(registry.graph, d, instance, text, Depth(registry.graph, d))
  {
    if text == [] {
      return Failure(InvalidArgument);
    }
    var ret := registry.Validate(d);
    if ret != Ok {
      return Failure(ret);
    }
    r := ResolvePath(registry, d, instance, text, Depth(registry.graph, d));
  }

  // ----------------------------------------------------------------- soundness

  /** Bytes the target covers: one element if an index was given, otherwise the whole field. */
  ghost function TargetExtent(g: Graph, t: Target): nat
    requires t.d < |g| && t.field < |Fields(g, t.d)|
  {
    var f := Fields(g, t.d)[t.field];
    if t.index.Some? then f.elementSize else Extent(f)
  }

  ghost predicate TargetInside(g: Graph, t: Target, from: nat, to: nat) {
    t.d < |g| && t.field < |Fields(g, t.d)| && from <= t.address && t.address + TargetExtent(g, t) <= to
  }

  /** Every path that resolves yields a byte range wholly inside the instance. */
  lemma {:induction false} ResolvedInside(g: Graph, d: Ref, address: nat, text: CString, k: nat)
    requires Closed(g) && d < |g| && ValidWithin(g, d, k)
    requires ResolveFrom(g, d, address, text, k).Success?
    ensures TargetInside(g, ResolveFrom(g, d, address, text, k).value, address, address + g[d].size)
    decreases k, 1
  {
    var n := IdentLength(text);
    var i := Registry.FirstField(Fields(g, d), text[..n]).value;
    var f := Fields(g, d)[i];
    match IndexOf(text[n..]) {
      case Absent =>
        ContinuedInside(g, d, i, None, address, text[n..], k);
      case Index(v, rest) =>
        ContinuedInside(g, d, i, Some(v), address, rest, k);
      case Refused(_) =>
    }
  }

  /** The bytes of a field, and of each of its elements, lie inside the structure. */
  lemma {:induction false} FieldInside(g: Graph, d: Ref, i: nat, address: nat, e: nat, size: Size)
    requires Closed(g) && d < |g| && i < |Fields(g, d)| && FieldOk(g, Fields(g, d)[i], size)
    requires e < Fields(g, d)[i].elementCount
    ensures var f := Fields(g, d)[i];
      && address <= At(f, address, e) && At(f, address, e) + ElementExtent(f) <= address + size
      && At(f, address, 0) + Extent(f) <= address + size
  {
    ElementFits(Fields(g, d)[i], address, e);
  }

  lemma {:induction false} ContinuedInside(g: Graph, d: Ref, i: nat, index: Option<nat>, address: nat, rest: CString, k: nat)
    requires Closed(g) && d < |g| && ValidWithin(g, d, k) && i < |Fields(g, d)|
    requires var f := Fields(g, d)[i]; index.Some? ==> index.value < f.elementCount && !f.kind.CharArray?
    requires ContinueFrom(g, d, i, index, At(Fields(g, d)[i], address, Element(index)), rest, k).Success?
    ensures TargetInside(g, ContinueFrom(g, d, i, index, At(Fields(g, d)[i], address, Element(index)), rest, k).value,
                         address, address + g[d].size)
    decreases k, 0
  {
    var f := Fields(g, d)[i];
    FieldInside(g, d, i, address, Element(index), g[d].size);
    if rest != [] {
      var value := At(f, address, Element(index));
      ResolvedInside(g, f.nested.value, value, rest[1..], k - 1);
    }
  }

  /** The element a segment without an index starts at is the first. */
  function Element(index: Option<nat>): nat {
    if index.Some? then index.value else 0
  }
}
