/**
 The table of supported types and the overflow-checked layout engine for x86_64
 structures, with the proof that it computes the least legal placement.
 */
module Layout {
  import opened Base
  import opened Arithmetic
  import opened Meta

  datatype TypeEntry = TypeEntry(spelling: CString, kind: Kind, size: Size, alignment: Size)

  /** The declared types whose arrays are byte arrays. */
  predicate ExplicitByteType(typeName: CString) {
    typeName == "signed char" || typeName == "unsigned char" || typeName == "int8_t" || typeName == "uint8_t"
  }

  /** A supported type is as aligned as it is large, and has a width its kind allows. */
  predicate TypeEntryOk(t: TypeEntry) {
    && t.alignment == t.size && SupportedSize(t.size)
    && (IsInteger(t.kind) || (t.kind.Float? && t.size == 4) || (t.kind.Double? && t.size == 8))
    && (ExplicitByteType(t.spelling) || t.spelling == "char" ==> t.size == 1 && IsInteger(t.kind))
  }

  type LayoutType = t: TypeEntry | TypeEntryOk(t) witness TypeEntry("char", SignedInteger, 1, 1)

  const CHARACTER_TYPES: seq<LayoutType> := [
    TypeEntry("char", SignedInteger, 1, 1),
    TypeEntry("signed char", SignedInteger, 1, 1),
    TypeEntry("unsigned char", UnsignedInteger, 1, 1)
  ]

  const SHORT_TYPES: seq<LayoutType> := [
    TypeEntry("short", SignedInteger, 2, 2),
    TypeEntry("unsigned short", UnsignedInteger, 2, 2)
  ]

  const INT_TYPES: seq<LayoutType> := [
    TypeEntry("int", SignedInteger, 4, 4),
    TypeEntry("unsigned", UnsignedInteger, 4, 4)
  ]

  const LONG_TYPES: seq<LayoutType> := [
    TypeEntry("long long", SignedInteger, 8, 8),
    TypeEntry("unsigned long long", UnsignedInteger, 8, 8)
  ]

  const SIGNED_FIXED_TYPES: seq<LayoutType> := [
    TypeEntry("int8_t", SignedInteger, 1, 1),
    TypeEntry("int16_t", SignedInteger, 2, 2),
    TypeEntry("int32_t", SignedInteger, 4, 4),
    TypeEntry("int64_t", SignedInteger, 8, 8)
  ]

  const UNSIGNED_FIXED_TYPES: seq<LayoutType> := [
    TypeEntry("uint8_t", UnsignedInteger, 1, 1),
    TypeEntry("uint16_t", UnsignedInteger, 2, 2),
    TypeEntry("uint32_t", UnsignedInteger, 4, 4),
    TypeEntry("uint64_t", UnsignedInteger, 8, 8)
  ]

  const FLOATING_TYPES: seq<LayoutType> := [
    TypeEntry("float", Float, 4, 4),
    TypeEntry("double", Double, 8, 8)
  ]

  /** The table, in the order it is searched. */
  const TYPES: seq<LayoutType> :=
    CHARACTER_TYPES + SHORT_TYPES + INT_TYPES + LONG_TYPES + SIGNED_FIXED_TYPES + UNSIGNED_FIXED_TYPES
    + FLOATING_TYPES

  /** The first entry of the table with the given spelling. */
  function FirstType(types: seq<LayoutType>, spelling: CString): (r: Option<LayoutType>)
    ensures r.None? <==> forall t :: t in types ==> t.spelling != spelling
    ensures r.Some? ==> r.value in types && r.value.spelling == spelling
  {
    if types == [] then None
    else if types[0].spelling == spelling then Some(types[0])
    else FirstType(types[1..], spelling)
  }

  function TypeOf(spelling: CString): Option<LayoutType> {
    FirstType(TYPES, spelling)
  }

  lemma {:induction false} SearchedFurther(types: seq<LayoutType>, i: nat, spelling: CString)
    requires i < |types|
    ensures FirstType(types[i..], spelling) ==
      if types[i].spelling == spelling then Some(types[i]) else FirstType(types[i + 1..], spelling)
  {
    assert types[i..][0] == types[i] && types[i..][1..] == types[i + 1..];
  }

  method FindType(spelling: CString) returns (r: Option<LayoutType>)
    ensures r == TypeOf(spelling)
  {
    r := SearchTypes(TYPES, spelling);
  }

  method SearchTypes(types: seq<LayoutType>, spelling: CString) returns (r: Option<LayoutType>)
    ensures r == FirstType(types, spelling)
  {
    var i := 0;
    while i < |types|
      invariant 0 <= i <= |types|
      invariant FirstType(types, spelling) == FirstType(types[i..], spelling)
    {
      SearchedFurther(types, i, spelling);
      if types[i].spelling == spelling {
        return Some(types[i]);
      }
      i := i + 1;
    }
    return None;
  }

  // ---------------------------------------------------------- the ideal layout

  /** Consecutive elements of one type inside a structure. */
  datatype Member = Member(size: nat, count: nat, alignment: nat) {
    function Total(): nat { size * count }
    ghost predicate Legal() {
      size > 0 && count > 0 && PowerOfTwo(alignment)
    }
  }

  ghost predicate AllLegal(members: seq<Member>) {
    forall i :: 0 <= i < |members| ==> members[i].Legal()
  }

  /** The first byte after the last member, over the integers. */
  ghost function EndOf(members: seq<Member>): nat
    requires AllLegal(members)
  {
    if members == [] then 0
    else
      var n := |members| - 1;
      RoundUp(EndOf(members[..n]), PowerPositive(members[n].alignment)) + members[n].Total()
  }

  ghost function PowerPositive(n: nat): (p: nat)
    requires PowerOfTwo(n)
    ensures p == n && p > 0
  {
    n
  }

  ghost function OffsetOf(members: seq<Member>, i: nat): nat
    requires AllLegal(members) && i < |members|
  {
    RoundUp(EndOf(members[..i]), PowerPositive(members[i].alignment))
  }

  ghost function AlignmentOf(members: seq<Member>): (a: nat)
    requires AllLegal(members)
    ensures PowerOfTwo(a) && a > 0
    ensures forall i :: 0 <= i < |members| ==> members[i].alignment <= a
    ensures a == 1 || exists i :: 0 <= i < |members| && a == members[i].alignment
  {
    if members == [] then assert Pow2(0) == 1; 1
    else
      var n := |members| - 1;
      var before := AlignmentOf(members[..n]);
      if PowerPositive(members[n].alignment) > before then members[n].alignment else before
  }

  ghost function SizeOf(members: seq<Member>): nat
    requires AllLegal(members)
  {
    RoundUp(EndOf(members), AlignmentOf(members))
  }

  ghost function Offsets(members: seq<Member>): (s: seq<nat>)
    requires AllLegal(members)
    ensures |s| == |members| && forall i :: 0 <= i < |s| ==> s[i] == OffsetOf(members, i)
  {
    seq(|members|, i requires 0 <= i < |members| => OffsetOf(members, i))
  }

  /**
   A placement a C compiler may choose: every member aligned, members in order and
   disjoint, and the size a multiple of every alignment so that arrays stay aligned.
   */
  ghost predicate LegalPlacement(members: seq<Member>, offsets: seq<nat>, size: nat)
    requires AllLegal(members)
  {
    && |offsets| == |members|
    && (forall i :: 0 <= i < |members| ==> Divides(PowerPositive(members[i].alignment), offsets[i]))
    && (forall i, j :: 0 <= i < j < |members| ==> offsets[i] + members[i].Total() <= offsets[j])
    && (forall i :: 0 <= i < |members| ==> offsets[i] + members[i].Total() <= size)
    && (forall i :: 0 <= i < |members| ==> Divides(PowerPositive(members[i].alignment), size))
  }

  lemma {:induction false} EndCoversPrefix(members: seq<Member>, i: nat)
    requires AllLegal(members) && i < |members|
    ensures OffsetOf(members, i) + members[i].Total() <= EndOf(members)
    decreases |members|
  {
    var n := |members| - 1;
    if i < n {
      EndCoversPrefix(members[..n], i);
      assert members[..n][..i] == members[..i];
      RoundUpDivides(EndOf(members[..n]), members[n].alignment);
    }
  }

  lemma {:induction false} OffsetsInOrder(members: seq<Member>, i: nat, j: nat)
    requires AllLegal(members) && i < j < |members|
    ensures OffsetOf(members, i) + members[i].Total() <= OffsetOf(members, j)
  {
    EndCoversPrefix(members[..j], i);
    assert members[..j][..i] == members[..i];
    RoundUpDivides(EndOf(members[..j]), members[j].alignment);
  }

  /** What the engine computes is legal. */
  lemma {:induction false} LayoutIsLegal(members: seq<Member>)
    requires AllLegal(members)
    ensures LegalPlacement(members, Offsets(members), SizeOf(members))
  {
    var a := AlignmentOf(members);
    RoundUpDivides(EndOf(members), a);
    forall i | 0 <= i < |members|
      ensures Divides(PowerPositive(members[i].alignment), OffsetOf(members, i))
      ensures Divides(PowerPositive(members[i].alignment), SizeOf(members))
      ensures OffsetOf(members, i) + members[i].Total() <= SizeOf(members)
    {
      RoundUpDivides(EndOf(members[..i]), members[i].alignment);
      PowersDivide(members[i].alignment, a);
      DividesTransitive(members[i].alignment, a, SizeOf(members));
      EndCoversPrefix(members, i);
    }
    forall i, j | 0 <= i < j < |members|
      ensures OffsetOf(members, i) + members[i].Total() <= OffsetOf(members, j)
    {
      OffsetsInOrder(members, i, j);
    }
  }

  lemma {:induction false} EndIsLeast(members: seq<Member>, offsets: seq<nat>, size: nat, n: nat)
    requires AllLegal(members) && LegalPlacement(members, offsets, size) && n < |members|
    ensures OffsetOf(members, n) <= offsets[n]
    ensures EndOf(members[..n + 1]) <= offsets[n] + members[n].Total()
  {
    var before := members[..n];
    if n > 0 {
      EndIsLeast(members, offsets, size, n - 1);
      assert offsets[n - 1] + members[n - 1].Total() <= offsets[n];
    }
    assert EndOf(before) <= offsets[n];
    RoundUpLeast(EndOf(before), PowerPositive(members[n].alignment), offsets[n]);
    assert members[..n + 1][..n] == before;
  }

  /** No legal placement puts any member lower or makes the structure smaller. */
  lemma {:induction false} LayoutIsLeast(members: seq<Member>, offsets: seq<nat>, size: nat)
    requires AllLegal(members) && LegalPlacement(members, offsets, size)
    ensures forall i :: 0 <= i < |members| ==> OffsetOf(members, i) <= offsets[i]
    ensures SizeOf(members) <= size
  {
    forall i | 0 <= i < |members| ensures OffsetOf(members, i) <= offsets[i] {
      EndIsLeast(members, offsets, size, i);
    }
    if members != [] {
      EndIsLeast(members, offsets, size, |members| - 1);
      assert members[..|members|] == members;
    }
    var a := AlignmentOf(members);
    if a == 1 {
      assert Divides(1, size);
    }
    RoundUpLeast(EndOf(members), a, size);
  }

  lemma {:induction false} EndIsPositive(members: seq<Member>)
    requires AllLegal(members)
    ensures EndOf(members) == 0 <==> members == []
  {
    if members != [] {
      var m := members[|members| - 1];
      MultiplyOrder(m.size, 1, m.count);
    }
  }

  lemma {:induction false} EndOfMore(members: seq<Member>, m: Member)
    requires AllLegal(members) && m.Legal()
    ensures OffsetOf(members + [m], |members|) == RoundUp(EndOf(members), m.alignment)
    ensures EndOf(members + [m]) == RoundUp(EndOf(members), m.alignment) + m.Total()
    ensures AlignmentOf(members + [m]) ==
      if m.alignment > AlignmentOf(members) then m.alignment else AlignmentOf(members)
  {
    assert (members + [m])[..|members|] == members;
  }

  // ------------------------------------------------------------- the engine

  /** The start and length of the next member, every step checked for overflow. */
  method Place(offset: Size, elementSize: Size, elementCount: Size, alignment: Size) returns (r: Outcome<(Size, Size)>)
    requires elementSize > 0 && alignment > 0
    ensures var start, total := RoundUp(offset, alignment), elementSize * elementCount;
      r == if start + total > SIZE_MAX then Failure(OutOfRange) else Success((start, total))
  {
    var padding: Size := Padding(offset, alignment);
    if padding > SIZE_MAX - offset {
      return Failure(OutOfRange);
    }
    var start: Size := offset + padding;
    ProductFits(elementCount, elementSize);
    if elementCount > SIZE_MAX / elementSize {
      return Failure(OutOfRange);
    }
    var total: Size := elementSize * elementCount;
    if total > SIZE_MAX - start {
      return Failure(OutOfRange);
    }
    return Success((start, total));
  }

  class Builder {
    var offset: Size
    var alignment: Size
    ghost var members: seq<Member>

    ghost predicate Valid()
      reads this
    {
      AllLegal(members) && offset == EndOf(members) && alignment == AlignmentOf(members)
    }

    constructor Begin()
      ensures Valid() && members == []
    {
      offset, alignment, members := 0, 1, [];
    }

    /** Places one member; the layout is out of range exactly when its ideal end is. */
    method Add(elementSize: Size, elementCount: Size, memberAlignment: Size) returns (r: Outcome<Size>)
      requires Valid()
      modifies this
      ensures Valid()
      ensures var m := Member(elementSize, elementCount, memberAlignment);
        if !m.Legal() then r == Failure(InvalidArgument) && unchanged(this)
        else if EndOf(old(members) + [m]) > SIZE_MAX then r == Failure(OutOfRange) && unchanged(this)
        else members == old(members) + [m] && r == Success(OffsetOf(members, |members| - 1))
    {
      hide EndOf, AlignmentOf, OffsetOf, RoundUp, BitAnd;
      ghost var m := Member(elementSize, elementCount, memberAlignment);
      IsPowerOfTwoExact(memberAlignment);
      if elementSize == 0 || elementCount == 0 || !IsPowerOfTwo(memberAlignment) {
        return Failure(InvalidArgument);
      }
      EndOfMore(members, m);
      var place := Place(offset, elementSize, elementCount, memberAlignment);
      if place.Failure? {
        return Failure(place.code);
      }
      offset := place.value.0 + place.value.1;
      if memberAlignment > alignment {
        alignment := memberAlignment;
      }
      members := members + [m];
      return Success(place.value.0);
    }

    method End() returns (r: Outcome<(Size, Size)>)
      requires Valid()
      ensures r ==
        if members == [] then Failure(InvalidArgument)
        else if SizeOf(members) > SIZE_MAX then Failure(OutOfRange)
        else Success((SizeOf(members), AlignmentOf(members)))
    {
      EndIsPositive(members);
      IsPowerOfTwoExact(alignment);
      if offset == 0 || !IsPowerOfTwo(alignment) {
        return Failure(InvalidArgument);
      }
      var padding: Size := Padding(offset, alignment);
      if padding > SIZE_MAX - offset {
        return Failure(OutOfRange);
      }
      return Success((offset + padding, alignment));
    }
  }
}
