/**
 What a descriptor says about the C declaration it was built from, in terms of the header
 and the descriptor alone.
 */
module Declared {
  import opened Base
  import opened Arithmetic
  import opened Meta
  import opened Layout
  import opened Ast
  import opened Build
  import opened Built

  // -------------------------------------------------------------- the C types

  /** The supported spellings, by the kind and width of the type they denote on x86_64. */
  ghost predicate IsCType(name: CString, kind: Kind, width: nat) {
    match kind
    case SignedInteger =>
      || (width == 1 && (name == "char" || name == "signed char" || name == "int8_t"))
      || (width == 2 && (name == "short" || name == "int16_t"))
      || (width == 4 && (name == "int" || name == "int32_t"))
      || (width == 8 && (name == "long long" || name == "int64_t"))
    case UnsignedInteger =>
      || (width == 1 && (name == "unsigned char" || name == "uint8_t"))
      || (width == 2 && (name == "unsigned short" || name == "uint16_t"))
      || (width == 4 && (name == "unsigned" || name == "uint32_t"))
      || (width == 8 && (name == "unsigned long long" || name == "uint64_t"))
    case Float => width == 4 && name == "float"
    case Double => width == 8 && name == "double"
    case _ => false
  }

  /** Whatever the table has under a spelling is a type the spelling denotes. */
  ghost predicate Says(types: seq<LayoutType>, name: CString) {
    forall t :: t in types && t.spelling == name ==> IsCType(name, t.kind, t.size)
  }

  lemma {:induction false} CharactersSay(name: CString)
    ensures Says(CHARACTER_TYPES, name) && Says(SHORT_TYPES, name) && Says(INT_TYPES, name)
  {
  }

  lemma {:induction false} LongsSay(name: CString)
    ensures Says(LONG_TYPES, name) && Says(FLOATING_TYPES, name)
  {
  }

  lemma {:induction false} FixedSay(name: CString)
    ensures Says(SIGNED_FIXED_TYPES, name) && Says(UNSIGNED_FIXED_TYPES, name)
  {
  }

  /** What is found is a supported spelling of just that kind and width. */
  lemma {:induction false} FoundIsCType(name: CString)
    ensures TypeOf(name).Some? ==> IsCType(name, TypeOf(name).value.kind, TypeOf(name).value.size)
  {
    hide IsCType, TypeEntryOk;
    CharactersSay(name);
    LongsSay(name);
    FixedSay(name);
  }

  ghost predicate Listed(types: seq<LayoutType>, name: CString) {
    exists t :: t in types && t.spelling == name
  }

  lemma {:induction false} ListedIsFound(types: seq<LayoutType>, name: CString)
    requires Listed(types, name) && forall t :: t in types ==> t in TYPES
    ensures TypeOf(name).Some?
  {
  }

  lemma {:induction false} PartsOfTable()
    ensures forall t :: t in CHARACTER_TYPES + SHORT_TYPES + INT_TYPES + LONG_TYPES + SIGNED_FIXED_TYPES ==> t in TYPES
    ensures forall t :: t in CHARACTER_TYPES + SHORT_TYPES + INT_TYPES + LONG_TYPES + UNSIGNED_FIXED_TYPES ==> t in TYPES
    ensures forall t :: t in FLOATING_TYPES ==> t in TYPES
  {
  }

  lemma {:induction false} SignedListed(name: CString, width: nat)
    requires IsCType(name, SignedInteger, width)
    ensures Listed(CHARACTER_TYPES + SHORT_TYPES + INT_TYPES + LONG_TYPES + SIGNED_FIXED_TYPES, name)
  {
    assert CHARACTER_TYPES[0].spelling == "char" && CHARACTER_TYPES[1].spelling == "signed char";
    assert SHORT_TYPES[0].spelling == "short" && INT_TYPES[0].spelling == "int" && LONG_TYPES[0].spelling == "long long";
    assert SIGNED_FIXED_TYPES[0].spelling == "int8_t" && SIGNED_FIXED_TYPES[1].spelling == "int16_t";
    assert SIGNED_FIXED_TYPES[2].spelling == "int32_t" && SIGNED_FIXED_TYPES[3].spelling == "int64_t";
  }

  lemma {:induction false} UnsignedListed(name: CString, width: nat)
    requires IsCType(name, UnsignedInteger, width)
    ensures Listed(CHARACTER_TYPES + SHORT_TYPES + INT_TYPES + LONG_TYPES + UNSIGNED_FIXED_TYPES, name)
  {
    assert CHARACTER_TYPES[2].spelling == "unsigned char" && SHORT_TYPES[1].spelling == "unsigned short";
    assert INT_TYPES[1].spelling == "unsigned" && LONG_TYPES[1].spelling == "unsigned long long";
    assert UNSIGNED_FIXED_TYPES[0].spelling == "uint8_t" && UNSIGNED_FIXED_TYPES[1].spelling == "uint16_t";
    assert UNSIGNED_FIXED_TYPES[2].spelling == "uint32_t" && UNSIGNED_FIXED_TYPES[3].spelling == "uint64_t";
  }

  lemma {:induction false} FloatingListed(name: CString, kind: Kind, width: nat)
    requires IsCType(name, kind, width) && (kind.Float? || kind.Double?)
    ensures Listed(FLOATING_TYPES, name)
  {
    assert FLOATING_TYPES[0].spelling == "float" && FLOATING_TYPES[1].spelling == "double";
  }

  lemma {:induction false} CTypeIsFound(name: CString, kind: Kind, width: nat)
    requires IsCType(name, kind, width)
    ensures TypeOf(name).Some?
  {
    hide Listed, TypeOf;
    PartsOfTable();
    if kind.SignedInteger? {
      SignedListed(name, width);
      ListedIsFound(CHARACTER_TYPES + SHORT_TYPES + INT_TYPES + LONG_TYPES + SIGNED_FIXED_TYPES, name);
    } else if kind.UnsignedInteger? {
      UnsignedListed(name, width);
      ListedIsFound(CHARACTER_TYPES + SHORT_TYPES + INT_TYPES + LONG_TYPES + UNSIGNED_FIXED_TYPES, name);
    } else {
      FloatingListed(name, kind, width);
      ListedIsFound(FLOATING_TYPES, name);
    }
  }

  /** A spelling denotes one type only. */
  lemma {:induction false} OneMeaning(name: CString, kind: Kind, width: nat, other: Kind, size: nat)
    requires IsCType(name, kind, width) && IsCType(name, other, size)
    ensures kind == other && width == size
  {
  }

  /** The table is total: a spelling is found exactly if it is supported, with its kind, width and alignment. */
  lemma {:induction false} TypeTable(name: CString, kind: Kind, width: nat)
    ensures IsCType(name, kind, width) <==>
      TypeOf(name).Some? && TypeOf(name).value.kind == kind && TypeOf(name).value.size == width
    ensures TypeOf(name).Some? ==> TypeOf(name).value.alignment == TypeOf(name).value.size
  {
    hide IsCType;
    FoundIsCType(name);
    if IsCType(name, kind, width) {
      CTypeIsFound(name, kind, width);
      OneMeaning(name, kind, width, TypeOf(name).value.kind, TypeOf(name).value.size);
    }
    if TypeOf(name).Some? {
      var t: LayoutType := TypeOf(name).value;
      assert TypeEntryOk(t);
    }
  }

  // ---------------------------------------------------------------- attributes

  /** The first attribute with the key has the value. */
  ghost predicate FirstHas(attributes: seq<AstAttribute>, key: CString, value: Option<CString>) {
    exists p :: 0 <= p < |attributes| && attributes[p].key == key && attributes[p].value == value
      && forall q :: 0 <= q < p ==> attributes[q].key != key
  }

  ghost predicate HasKey(attributes: seq<AstAttribute>, key: CString) {
    exists p :: 0 <= p < |attributes| && attributes[p].key == key
  }

  lemma {:induction false} FirstBehind(attributes: seq<AstAttribute>, key: CString, value: Option<CString>)
    requires attributes != [] && attributes[0].key != key && FirstHas(attributes[1..], key, value)
    ensures FirstHas(attributes, key, value)
  {
    var rest := attributes[1..];
    var p :| 0 <= p < |rest| && rest[p].key == key && rest[p].value == value
      && forall q :: 0 <= q < p ==> rest[q].key != key;
    assert forall q :: 0 < q < p + 1 ==> attributes[q] == rest[q - 1];
    assert attributes[p + 1].key == key;
  }

  lemma {:induction false} HadBehind(attributes: seq<AstAttribute>, key: CString, value: Option<CString>)
    requires attributes != [] && attributes[0].key != key && FirstHas(attributes, key, value)
    ensures FirstHas(attributes[1..], key, value)
  {
    var rest := attributes[1..];
    var p :| 0 <= p < |attributes| && attributes[p].key == key && attributes[p].value == value
      && forall q :: 0 <= q < p ==> attributes[q].key != key;
    assert forall q :: 0 <= q < p - 1 ==> rest[q] == attributes[q + 1];
    assert rest[p - 1].key == key;
  }

  lemma {:induction false} KeyBehind(attributes: seq<AstAttribute>, key: CString)
    requires attributes != []
    ensures HasKey(attributes, key) <==> attributes[0].key == key || HasKey(attributes[1..], key)
  {
    assert forall p :: 0 < p < |attributes| ==> attributes[p] == attributes[1..][p - 1];
    assert forall p :: 0 <= p < |attributes| - 1 ==> attributes[1..][p] == attributes[p + 1];
  }

  lemma {:induction false} FirstAtFront(attributes: seq<AstAttribute>, key: CString, value: Option<CString>)
    requires attributes == [] || attributes[0].key == key
    ensures FirstHas(attributes, key, value) <==> attributes != [] && attributes[0].value == value
    ensures attributes == [] ==> !HasKey(attributes, key)
  {
  }

  lemma {:induction false} FirstOfIs(attributes: seq<AstAttribute>, key: CString, value: Option<CString>)
    ensures FirstOf(attributes, key).Some? <==> HasKey(attributes, key)
    ensures FirstHas(attributes, key, value) <==>
      FirstOf(attributes, key).Some? && FirstOf(attributes, key).value.value == value
    decreases |attributes|
  {
    hide HasKey, FirstHas;
    if attributes == [] {
      FirstAtFront(attributes, key, value);
    } else {
      var rest := attributes[1..];
      FirstOfIs(rest, key, value);
      KeyBehind(attributes, key);
      if attributes[0].key == key {
        FirstAtFront(attributes, key, value);
      } else if FirstHas(attributes, key, value) {
        HadBehind(attributes, key, value);
      } else if FirstHas(rest, key, value) {
        FirstBehind(attributes, key, value);
      }
    }
  }

  /** An array of an eight-bit type, of char only with meta.kind=bytes. */
  ghost predicate ByteArrayDeclared(f: AstField) {
    && f.arrayCount > 0
    && (f.typeName == "signed char" || f.typeName == "unsigned char"
        || f.typeName == "int8_t" || f.typeName == "uint8_t"
        || (f.typeName == "char" && FirstHas(f.attributes, "meta.kind", Some("bytes"))))
  }

  /** meta.kind says bytes and meta.format says hex, where they are given, on an array of bytes. */
  ghost predicate MetaAsMeant(f: AstField) {
    && (HasKey(f.attributes, "meta.kind") ==> FirstHas(f.attributes, "meta.kind", Some("bytes")) && ByteArrayDeclared(f))
    && (HasKey(f.attributes, "meta.format") ==> FirstHas(f.attributes, "meta.format", Some("hex")) && ByteArrayDeclared(f))
  }

  lemma {:induction false} MetaLegalMeans(f: AstField)
    ensures MetaLegal(f) <==> MetaAsMeant(f)
  {
    FirstOfIs(f.attributes, "meta.kind", Some("bytes"));
    FirstOfIs(f.attributes, "meta.format", Some("hex"));
  }

  /** What a struct must satisfy by itself, in the words of its declaration. */
  ghost predicate DeclaredLegally(header: Header, s: AstStruct) {
    && s.fields != []
    && forall f :: f in s.fields ==>
      && MetaAsMeant(f)
      && (if f.isStruct then exists t :: t in header && t.name == f.typeName
          else exists kind, width: nat :: IsCType(f.typeName, kind, width))
  }

  lemma {:induction false} ResolvesMeans(header: Header, f: AstField)
    ensures Resolves(header, f) <==>
      if f.isStruct then exists t :: t in header && t.name == f.typeName
      else exists kind, width: nat :: IsCType(f.typeName, kind, width)
  {
    if f.isStruct {
      if FirstStruct(header, f.typeName).Some? {
        assert header[FirstStruct(header, f.typeName).value] in header;
      }
    } else if TypeOf(f.typeName).Some? {
      TypeTable(f.typeName, TypeOf(f.typeName).value.kind, TypeOf(f.typeName).value.size);
    } else if exists kind, width: nat :: IsCType(f.typeName, kind, width) {
      var kind, width: nat :| IsCType(f.typeName, kind, width);
      TypeTable(f.typeName, kind, width);
    }
  }

  lemma {:induction false} StructLegalMeans(header: Header, i: nat)
    requires i < |header|
    ensures StructLegal(header, i) <==> DeclaredLegally(header, header[i])
  {
    forall f | f in header[i].fields
      ensures Resolves(header, f) <==>
        if f.isStruct then exists t :: t in header && t.name == f.typeName
        else exists kind, width: nat :: IsCType(f.typeName, kind, width)
    {
      ResolvesMeans(header, f);
    }
    forall f | f in header[i].fields ensures MetaLegal(f) <==> MetaAsMeant(f) {
      MetaLegalMeans(f);
    }
    hide Resolves, MetaLegal, MetaAsMeant, IsCType;
    if DeclaredLegally(header, header[i]) {
      forall j | 0 <= j < |header[i].fields| ensures MetaLegal(header[i].fields[j]) && Resolves(header, header[i].fields[j]) {
        assert header[i].fields[j] in header[i].fields;
      }
    }
  }

  // ------------------------------------------------------------ built fields

  /** `char name[N]` without meta.kind=bytes. */
  ghost predicate DeclaredAsText(f: AstField) {
    !f.isStruct && f.typeName == "char" && f.arrayCount > 0 && !FirstHas(f.attributes, "meta.kind", Some("bytes"))
  }

  ghost predicate SameAttributes(t: Table<Attribute>, attributes: seq<AstAttribute>) {
    && |t.Items()| == |attributes|
    && forall p :: 0 <= p < |attributes| ==>
      t.Items()[p].key == Some(attributes[p].key) && t.Items()[p].value == attributes[p].value
  }

  /** The descriptor of a field says what its declaration says. */
  ghost predicate AsDeclared(header: Header, g: Graph, f: AstField, t: Field) {
    && t.name == Some(f.name) && SameAttributes(t.attributes, f.attributes)
    && (if DeclaredAsText(f) then
          t.kind == CharArray && t.elementSize == 1 && t.elementCount == 1 && t.charBufferSize == f.arrayCount
        else
          t.elementCount == (if f.arrayCount > 0 then f.arrayCount else 1) && t.charBufferSize == 0)
    && (if f.isStruct then
          && t.kind == Struct && t.nested.Some? && t.nested.value < |g| && t.nested.value < |header|
          && header[t.nested.value].name == f.typeName
          && (forall s :: 0 <= s < t.nested.value ==> header[s].name != f.typeName)
          && t.elementSize == g[t.nested.value].size
        else t.nested == None && (DeclaredAsText(f) || IsCType(f.typeName, t.kind, t.elementSize)))
  }

  lemma {:induction false} ByteArrayMeans(f: AstField)
    ensures DeclaredByteArray(f) <==> ByteArrayDeclared(f)
    ensures IsCharArray(f) <==> DeclaredAsText(f)
  {
    FirstOfIs(f.attributes, "meta.kind", Some("bytes"));
  }

  lemma {:induction false} CopiedAreSame(attributes: seq<AstAttribute>)
    ensures SameAttributes(Copied(attributes), attributes)
  {
  }

  lemma {:induction false} PlacedAsDeclared(header: Header, f: AstField, offset: Size)
    requires FieldLaid(header, f) && MemberOf(header, f).Total() <= SIZE_MAX
    ensures var t := DescribeField(header, f, offset);
      && t.name == Some(f.name) && SameAttributes(t.attributes, f.attributes)
      && (if DeclaredAsText(f) then
            t.kind == CharArray && t.elementSize == 1 && t.elementCount == 1 && t.charBufferSize == f.arrayCount
          else
            t.elementCount == (if f.arrayCount > 0 then f.arrayCount else 1) && t.charBufferSize == 0)
      && (!f.isStruct && !DeclaredAsText(f) ==> t.nested == None && IsCType(f.typeName, t.kind, t.elementSize))
      && (!f.isStruct ==> t.nested == None)
  {
    hide LaidWithin, MetaLegal, FirstType;
    hide IsCType, DeclaredAsText, TypeOf, SameAttributes;
    ByteArrayMeans(f);
    CopiedAreSame(f.attributes);
    if !f.isStruct {
      DeclaredTypeFound(header, f);
    }
  }

  lemma {:induction false} DeclaredTypeFound(header: Header, f: AstField)
    requires FieldLaid(header, f) && !f.isStruct
    ensures TypeOf(f.typeName).Some?
    ensures var t: TypeEntry := TypeOf(f.typeName).value;
      && t.spelling == f.typeName && TypeEntryOk(t)
      && IsCType(f.typeName, t.kind, t.size) && MemberOf(header, f).size == t.size
  {
    hide IsCType, FirstType;
    var t: LayoutType := TypeOf(f.typeName).value;
    assert TypeEntryOk(t);
    TypeTable(f.typeName, t.kind, t.size);
  }

  /** Every field of a built descriptor is as declared. */
  lemma {:induction false} BuiltAsDeclared(header: Header, g: Graph, i: nat, j: nat)
    requires IsBuilt(header, g) && i < |header| && j < |header[i].fields|
    ensures |Fields(g, i)| == |header[i].fields|
    ensures AsDeclared(header, g, header[i].fields[j], Fields(g, i)[j])
    ensures g[i].name == Some(header[i].name) && SameAttributes(g[i].attributes, header[i].attributes)
  {
    hide DeclaredAsText, IsCType;
    BuiltField(header, g, i, j);
    var f := header[i].fields[j];
    PlacedAsDeclared(header, f, OffsetOf(Ideal(header, i), j));
    BuiltNested(header, g, i, j);
    CopiedAreSame(header[i].attributes);
    ByteArrayMeans(f);
    if f.isStruct {
      BuiltIsClosed(header, g);
      PlacedNesting(header, g, i, j);
    }
  }

  /** The buildable headers, struct by struct in the words of the declarations. */
  lemma {:induction false} BuildableMeans(header: Header)
    ensures Buildable(header) <==>
      && header != [] && Acyclic(header) && (forall i: nat :: i < |header| ==> DeclaredLegally(header, header[i]))
      && (forall i: nat :: i < |header| && Laid(header, i) ==> SizeOf(Ideal(header, i)) <= SIZE_MAX)
  {
    forall i: nat | i < |header| ensures StructLegal(header, i) <==> DeclaredLegally(header, header[i]) {
      StructLegalMeans(header, i);
    }
  }

  // ------------------------------------------------------------- tight layout

  /** Where field j could start at the earliest: behind the field before it. */
  ghost function EndBefore(g: Graph, d: Ref, j: nat): nat
    requires d < |g| && j <= |Fields(g, d)|
  {
    if j == 0 then 0 else Fields(g, d)[j - 1].offset + Extent(Fields(g, d)[j - 1])
  }

  lemma {:induction false} EndOfPrefix(members: seq<Member>, j: nat)
    requires AllLegal(members) && 0 < j <= |members|
    ensures EndOf(members[..j]) == OffsetOf(members, j - 1) + members[j - 1].Total()
  {
    assert members[..j][..j - 1] == members[..j - 1];
  }

  lemma {:induction false} BuiltEnd(header: Header, g: Graph, i: nat, j: nat)
    requires IsBuilt(header, g) && i < |g| && j <= |header[i].fields|
    ensures Laid(header, i) && |Fields(g, i)| == |header[i].fields|
    ensures EndBefore(g, i, j) == EndOf(Ideal(header, i)[..j])
  {
    BuiltIsLaid(header, g, i);
    assert Describes(header, i, g[i]);
    if j > 0 {
      BuiltField(header, g, i, j - 1);
      EndOfPrefix(Ideal(header, i), j);
    }
  }

  /** No padding is larger than the alignment that asks for it. */
  lemma {:induction false} BuiltFieldIsTight(header: Header, g: Graph, i: nat, j: nat)
    requires IsBuilt(header, g) && i < |g| && j < |header[i].fields|
    ensures forall s: nat :: s < |header| ==> Laid(header, s)
    ensures |Fields(g, i)| == |header[i].fields|
    ensures var f := Fields(g, i)[j];
      && (f.kind.Struct? ==> f.nested.Some? && f.nested.value < |header|)
      && EndBefore(g, i, j) <= f.offset < EndBefore(g, i, j) + FieldAlignment(f, Alignments(header))
  {
    BuiltIsAligned(header, g);
    BuiltField(header, g, i, j);
    BuiltEnd(header, g, i, j);
    MemberAlignment(header, g, i, j);
    RoundUpDivides(EndOf(Ideal(header, i)[..j]), Ideal(header, i)[j].alignment);
  }

  /** The size ends with the padding of the largest field alignment, which is that of the structure. */
  lemma {:induction false} BuiltIsTight(header: Header, g: Graph, i: nat)
    requires IsBuilt(header, g) && i < |g|
    ensures forall s: nat :: s < |header| ==> Laid(header, s)
    ensures var n, align := |Fields(g, i)|, Alignments(header);
      && EndBefore(g, i, n) <= g[i].size < EndBefore(g, i, n) + align[i]
      && (align[i] == 1 || exists j: nat :: j < n && HasAlignment(g, align, i, j))
  {
    BuiltIsAligned(header, g);
    BuiltEnd(header, g, i, |header[i].fields|);
    var members := Ideal(header, i);
    assert Describes(header, i, g[i]);
    assert members[..|members|] == members;
    RoundUpDivides(EndOf(members), AlignmentOf(members));
    if AlignmentOf(members) != 1 {
      var j: nat :| j < |members| && AlignmentOf(members) == members[j].alignment;
      MemberAlignment(header, g, i, j);
      assert HasAlignment(g, Alignments(header), i, j);
    }
  }

  ghost predicate HasAlignment(g: Graph, align: seq<nat>, d: Ref, j: nat)
    requires d < |g| && d < |align| && j < |Fields(g, d)|
  {
    var f := Fields(g, d)[j];
    (f.kind.Struct? ==> f.nested.Some? && f.nested.value < |align|) && FieldAlignment(f, align) == align[d]
  }
}
