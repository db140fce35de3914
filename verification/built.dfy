/**
 What holds of every built descriptor: fields are aligned, in order and disjoint, and
 the independent validator accepts the result exactly when the header also meets the
 few conditions the builder does not check.
 */
module Built {
  import opened Base
  import opened Arithmetic
  import opened Meta
  import opened Layout
  import opened Ast
  import opened Build

  /** The alignment of each struct of the header. */
  ghost function Alignments(header: Header): (align: seq<nat>)
    requires forall i: nat :: i < |header| ==> Laid(header, i)
    ensures |align| == |header|
    ensures forall i :: 0 <= i < |align| ==> align[i] == AlignmentOf(Ideal(header, i))
  {
    seq(|header|, i requires 0 <= i < |header| => AlignmentOf(Ideal(header, i)))
  }

  /** The alignment of a field, given those of the structs. */
  ghost function FieldAlignment(f: Field, align: seq<nat>): nat
    requires f.kind.Struct? ==> f.nested.Some? && f.nested.value < |align|
  {
    if f.kind.Struct? then align[f.nested.value] else f.elementSize
  }

  /** Sizes are multiples of alignments, and every field sits at a multiple of its own. */
  ghost predicate Aligned(g: Graph, align: seq<nat>) {
    && |align| == |g|
    && (forall d :: 0 <= d < |g| ==> align[d] > 0 && Divides(align[d], g[d].size))
    && (forall d, i :: 0 <= d < |g| && 0 <= i < |Fields(g, d)| ==> FieldAligned(g, align, d, i))
  }

  ghost predicate FieldAligned(g: Graph, align: seq<nat>, d: Ref, i: nat)
    requires |align| == |g| && d < |g| && align[d] > 0 && i < |Fields(g, d)|
  {
    var f := Fields(g, d)[i];
    && (f.kind.Struct? ==> f.nested.Some? && f.nested.value < |g|)
    && FieldAlignment(f, align) > 0
    && Divides(FieldAlignment(f, align), f.offset)
    && Divides(FieldAlignment(f, align), align[d])
  }

  /** No two fields of a descriptor overlap, and they appear in order. */
  ghost predicate Ordered(g: Graph) {
    forall d, i, j :: 0 <= d < |g| && 0 <= i < j < |Fields(g, d)| ==>
      Fields(g, d)[i].offset + Extent(Fields(g, d)[i]) <= Fields(g, d)[j].offset
  }

  lemma {:induction false} ExtentOfPlaced(f: AstField, kind: Kind, size: Size, offset: Size, nested: Option<Ref>)
    requires size * DeclaredCount(f) <= SIZE_MAX && !kind.CharArray?
    ensures Extent(Placed(f, kind, size, offset, nested)) == size * DeclaredCount(f)
  {
  }

  lemma {:induction false} PlacedExtent(header: Header, f: AstField, offset: Size)
    requires FieldLaid(header, f) && MemberOf(header, f).Total() <= SIZE_MAX
    ensures Extent(DescribeField(header, f, offset)) == MemberOf(header, f).Total()
  {
    var m := MemberOf(header, f);
    SizeAtMostTotal(m);
    if f.isStruct {
      ExtentOfPlaced(f, Struct, m.size, offset, Some(FirstStruct(header, f.typeName).value));
    } else {
      ExtentOfPlaced(f, TypeOf(f.typeName).value.kind, m.size, offset, None);
    }
  }

  lemma {:induction false} BuiltField(header: Header, g: Graph, i: nat, j: nat)
    requires IsBuilt(header, g) && i < |g| && j < |header[i].fields|
    ensures Describes(header, i, g[i]) && |Fields(g, i)| == |header[i].fields|
    ensures var f, m := header[i].fields[j], Ideal(header, i)[j];
      && FieldLaid(header, f) && m == MemberOf(header, f)
      && OffsetOf(Ideal(header, i), j) + m.Total() <= g[i].size
      && Fields(g, i)[j] == DescribeField(header, f, OffsetOf(Ideal(header, i), j))
      && Fields(g, i)[j].offset == OffsetOf(Ideal(header, i), j) && Extent(Fields(g, i)[j]) == m.Total()
  {
    assert Describes(header, i, g[i]);
    IdealFieldFits(header, i, j);
    PlacedExtent(header, header[i].fields[j], OffsetOf(Ideal(header, i), j));
  }

  lemma {:induction false} BuiltIsLaid(header: Header, g: Graph, i: nat)
    requires IsBuilt(header, g) && i < |header|
    ensures Laid(header, i)
  {
    assert Describes(header, i, g[i]);
  }

  lemma {:induction false} BuiltIsClosed(header: Header, g: Graph)
    requires IsBuilt(header, g)
    ensures Closed(g)
  {
    hide LaidWithin, RoundUp, EndOf;
    forall d, i | 0 <= d < |g| && 0 <= i < |Fields(g, d)| && Fields(g, d)[i].nested.Some?
      ensures Fields(g, d)[i].nested.value < |g|
    {
      assert Describes(header, d, g[d]);
      BuiltField(header, g, d, i);
    }
  }

  lemma {:induction false} BuiltIsOrdered(header: Header, g: Graph)
    requires IsBuilt(header, g)
    ensures Ordered(g)
  {
    hide LaidWithin, DescribeField, MemberOf, StructLegal, RoundUp, EndOf;
    forall d, i, j | 0 <= d < |g| && 0 <= i < j < |Fields(g, d)|
      ensures Fields(g, d)[i].offset + Extent(Fields(g, d)[i]) <= Fields(g, d)[j].offset
    {
      assert Describes(header, d, g[d]);
      BuiltField(header, g, d, i);
      BuiltField(header, g, d, j);
      OffsetsInOrder(Ideal(header, d), i, j);
    }
  }

  lemma {:induction false} MemberAlignment(header: Header, g: Graph, i: nat, j: nat)
    requires IsBuilt(header, g) && i < |g| && j < |header[i].fields|
    requires forall s: nat :: s < |header| ==> Laid(header, s)
    ensures |Fields(g, i)| == |header[i].fields|
    ensures var f := Fields(g, i)[j];
      && (f.kind.Struct? ==> f.nested.Some? && f.nested.value < |header|)
      && FieldAlignment(f, Alignments(header)) == Ideal(header, i)[j].alignment
  {
    BuiltField(header, g, i, j);
    var source := header[i].fields[j];
    if source.isStruct {
      var t := FirstStruct(header, source.typeName).value;
      MembersIgnoreDepth(header, t, |header|, |header|, |header[t].fields|);
      assert MemberOf(header, source).alignment == AlignmentOf(Ideal(header, t));
    }
  }

  /** Built descriptors are laid out as the ABI demands. */
  lemma {:induction false} BuiltIsAligned(header: Header, g: Graph)
    requires IsBuilt(header, g)
    ensures forall i: nat :: i < |header| ==> Laid(header, i)
    ensures Aligned(g, Alignments(header))
  {
    forall i: nat | i < |header| ensures Laid(header, i) {
      BuiltIsLaid(header, g, i);
    }
    hide LaidWithin, DescribeField, MemberOf, StructLegal, RoundUp, EndOf;
    var align := Alignments(header);
    forall d | 0 <= d < |g| ensures align[d] > 0 && Divides(align[d], g[d].size) {
      assert Describes(header, d, g[d]);
      RoundUpDivides(EndOf(Ideal(header, d)), align[d]);
    }
    forall d, j | 0 <= d < |g| && 0 <= j < |Fields(g, d)| ensures FieldAligned(g, align, d, j) {
      assert Describes(header, d, g[d]);
      BuiltField(header, g, d, j);
      MemberAlignment(header, g, d, j);
      var members := Ideal(header, d);
      RoundUpDivides(EndOf(members[..j]), members[j].alignment);
      PowersDivide(members[j].alignment, AlignmentOf(members));
    }
  }

  // ------------------------------------------------ what the validator adds

  ghost predicate KeysOk(attributes: seq<AstAttribute>) {
    && (forall i :: 0 <= i < |attributes| ==> attributes[i].key != "")
    && (forall i, j :: 0 <= i < j < |attributes| ==> attributes[i].key != attributes[j].key)
  }

  /** meta.kind and meta.format stand only on primitive arrays of two or more elements. */
  ghost predicate MetaOnRealArray(f: AstField) {
    FirstOf(f.attributes, "meta.kind").Some? || FirstOf(f.attributes, "meta.format").Some? ==>
      !f.isStruct && f.arrayCount > 1
  }

  ghost predicate FieldPresentable(f: AstField) {
    f.name != "" && KeysOk(f.attributes) && MetaOnRealArray(f)
  }

  /** The conditions on a struct that the validator checks and the builder does not. */
  ghost predicate Presentable(s: AstStruct) {
    && s.name != "" && KeysOk(s.attributes)
    && forall j :: 0 <= j < |s.fields| ==> FieldPresentable(s.fields[j])
  }

  function CopiedOption(a: Option<AstAttribute>): Option<Attribute> {
    if a.None? then None else Some(Attribute(Some(a.value.key), a.value.value))
  }

  lemma {:induction false} CopiedLookup(attributes: seq<AstAttribute>, key: CString)
    ensures FirstAttribute(CopiedItems(attributes), key) == CopiedOption(FirstOf(attributes, key))
  {
    if attributes != [] {
      CopiedLookup(attributes[1..], key);
      assert CopiedItems(attributes)[1..] == CopiedItems(attributes[1..]);
    }
  }

  lemma {:induction false} CopiedAttributesOk(attributes: seq<AstAttribute>)
    ensures AttributesOk(Copied(attributes)) <==> KeysOk(attributes)
  {
    var items := Copied(attributes).Items();
    assert |items| == |attributes|;
    if AttributesOk(Copied(attributes)) {
      forall i, j | 0 <= i < j < |attributes| ensures attributes[i].key != attributes[j].key {
        assert items[i].key != items[j].key;
      }
      forall i | 0 <= i < |attributes| ensures attributes[i].key != "" {
        assert items[i].key.value != "";
      }
    }
  }

  lemma {:induction false} PlacedAttributes(header: Header, f: AstField, offset: Size)
    requires FieldLaid(header, f) && MemberOf(header, f).Total() <= SIZE_MAX
    ensures DescribeField(header, f, offset).attributes.Items() == CopiedItems(f.attributes)
  {
  }

  lemma {:induction false} PlacedByteArray(header: Header, f: AstField, offset: Size)
    requires FieldLaid(header, f) && MemberOf(header, f).Total() <= SIZE_MAX && DeclaredByteArray(f)
    ensures IsByteArray(DescribeField(header, f, offset)) <==> !f.isStruct && f.arrayCount > 1
  {
    if !f.isStruct {
      assert TypeEntryOk(TypeOf(f.typeName).value);
    }
  }

  lemma {:induction false} FormatOfCopies(f: AstField, kind: Option<Attribute>, format: Option<Attribute>, byteArray: bool)
    requires MetaLegal(f)
    requires kind == CopiedOption(FirstOf(f.attributes, "meta.kind"))
    requires format == CopiedOption(FirstOf(f.attributes, "meta.format"))
    ensures FormatFrom(kind, format, byteArray).Success? <==> (kind.Some? || format.Some? ==> byteArray)
    ensures kind.Some? || format.Some? ==> DeclaredByteArray(f)
  {
  }

  lemma {:induction false} FormatOfField(f: AstField, field: Field)
    requires MetaLegal(f) && field.attributes.Items() == CopiedItems(f.attributes)
    requires DeclaredByteArray(f) ==> (IsByteArray(field) <==> !f.isStruct && f.arrayCount > 1)
    ensures ByteFormatOf(field).Success? <==> MetaOnRealArray(f)
  {
    CopiedLookup(f.attributes, "meta.kind");
    CopiedLookup(f.attributes, "meta.format");
    FormatOfCopies(f, AttributeOf(field, "meta.kind"), AttributeOf(field, "meta.format"), IsByteArray(field));
  }

  lemma {:induction false} PlacedFormat(header: Header, f: AstField, offset: Size)
    requires FieldLaid(header, f) && MemberOf(header, f).Total() <= SIZE_MAX
    ensures ByteFormatOf(DescribeField(header, f, offset)).Success? <==> MetaOnRealArray(f)
  {
    PlacedAttributes(header, f, offset);
    if DeclaredByteArray(f) {
      PlacedByteArray(header, f, offset);
    }
    FormatOfField(f, DescribeField(header, f, offset));
  }

  lemma {:induction false} PlacedShape(header: Header, f: AstField, offset: Size)
    requires FieldLaid(header, f) && MemberOf(header, f).Total() <= SIZE_MAX
    ensures ShapeOk(DescribeField(header, f, offset))
  {
    var m := MemberOf(header, f);
    MultiplyOrder(m.size, 1, m.count);
  }

  lemma {:induction false} PlacedNesting(header: Header, g: Graph, i: nat, j: nat)
    requires IsBuilt(header, g) && Closed(g) && i < |g| && j < |header[i].fields|
    ensures |Fields(g, i)| == |header[i].fields|
    ensures NestingOk(g, Fields(g, i)[j]) && Inside(Fields(g, i)[j], g[i].size)
  {
    hide LaidWithin, RoundUp, EndOf, StructLegal;
    BuiltField(header, g, i, j);
    var f := header[i].fields[j];
    if f.isStruct {
      var t := FirstStruct(header, f.typeName).value;
      assert Describes(header, t, g[t]);
      assert MemberOf(header, f).size == SizeOf(Ideal(header, t));
    }
  }

  lemma {:induction false} FieldOkIffPresentable(header: Header, g: Graph, i: nat, j: nat)
    requires IsBuilt(header, g) && Closed(g) && i < |g| && j < |header[i].fields|
    ensures |Fields(g, i)| == |header[i].fields|
    ensures FieldOk(g, Fields(g, i)[j], g[i].size) <==> FieldPresentable(header[i].fields[j])
  {
    BuiltField(header, g, i, j);
    PlacedNesting(header, g, i, j);
    var f, offset := header[i].fields[j], OffsetOf(Ideal(header, i), j);
    PlacedShape(header, f, offset);
    PlacedFormat(header, f, offset);
    CopiedAttributesOk(f.attributes);
  }

  lemma {:induction false} LocallyOkIffPresentable(header: Header, g: Graph, i: nat)
    requires IsBuilt(header, g) && Closed(g) && i < |g|
    ensures LocallyOk(g, i) <==> Presentable(header[i])
  {
    assert Describes(header, i, g[i]);
    SizeIsPositive(Ideal(header, i));
    CopiedAttributesOk(header[i].attributes);
    forall j | 0 <= j < |header[i].fields|
      ensures FieldOk(g, Fields(g, i)[j], g[i].size) <==> FieldPresentable(header[i].fields[j])
    {
      FieldOkIffPresentable(header, g, i, j);
    }
  }

  lemma {:induction false} BuiltNested(header: Header, g: Graph, i: nat, j: nat)
    requires IsBuilt(header, g) && i < |g| && j < |Fields(g, i)|
    ensures |Fields(g, i)| == |header[i].fields|
    ensures Fields(g, i)[j].kind.Struct? <==> header[i].fields[j].isStruct
    ensures header[i].fields[j].isStruct ==> Fields(g, i)[j].nested == FirstStruct(header, header[i].fields[j].typeName)
  {
    assert Describes(header, i, g[i]);
    BuiltField(header, g, i, j);
  }

  lemma {:induction false} BuiltValidWithin(header: Header, g: Graph, i: nat, k: nat)
    requires IsBuilt(header, g) && Closed(g) && i < |g| && LaidWithin(header, i, k)
    requires forall s: nat :: s < |header| ==> Presentable(header[s])
    ensures ValidWithin(g, i, k)
    decreases k
  {
    LocallyOkIffPresentable(header, g, i);
    forall j | 0 <= j < |Fields(g, i)| && Fields(g, i)[j].kind.Struct?
      ensures k > 0 && ValidWithin(g, Fields(g, i)[j].nested.value, k - 1)
    {
      BuiltNested(header, g, i, j);
      BuiltValidWithin(header, g, Fields(g, i)[j].nested.value, k - 1);
    }
  }

  /**
   The validator accepts all built descriptors exactly when names and attribute keys are
   legal and meta attributes stand on arrays of two or more primitive elements.
   */
  lemma {:induction false} BuiltIsValidIffPresentable(header: Header, g: Graph)
    requires IsBuilt(header, g)
    ensures Closed(g)
    ensures (forall i: nat :: i < |g| ==> Valid(g, i)) <==> (forall i: nat :: i < |header| ==> Presentable(header[i]))
  {
    BuiltIsClosed(header, g);
    forall i: nat | i < |g| && Valid(g, i) ensures Presentable(header[i]) {
      LocallyOkIffPresentable(header, g, i);
    }
    if forall i: nat :: i < |header| ==> Presentable(header[i]) {
      forall i: nat | i < |g| ensures Valid(g, i) {
        BuiltIsLaid(header, g, i);
        BuiltValidWithin(header, g, i, |header|);
      }
    }
  }

  /** struct s { uint8_t x[1]; } with meta.format=hex on x. */
  ghost function OneByteHex(): AstField {
    AstField("x", "uint8_t", false, 1, [AstAttribute("meta.format", Some("hex"))])
  }

  lemma {:induction false} ByteTypeKnown()
    ensures TypeOf("uint8_t").Some? && TypeOf("uint8_t").value.size == 1 == TypeOf("uint8_t").value.alignment
  {
    var t: LayoutType := UNSIGNED_FIXED_TYPES[0];
    assert t.spelling == "uint8_t";
    assert t in TYPES by {
      assert t in UNSIGNED_FIXED_TYPES;
    }
    assert TypeOf(t.spelling).Some?;
    var found: LayoutType := TypeOf(t.spelling).value;
    assert TypeEntryOk(found);
  }

  lemma {:induction false} OneByteHexLegal()
    ensures MetaLegal(OneByteHex()) && FirstOf(OneByteHex().attributes, "meta.format").Some?
  {
    var a := AstAttribute("meta.format", Some("hex"));
    assert OneByteHex().attributes == [a];
    assert a.key[5] == 'f' && "meta.kind"[5] == 'k';
    OnlyAttribute(a, "meta.kind");
    OnlyAttribute(a, "meta.format");
  }

  lemma {:induction false} OnlyAttribute(a: AstAttribute, key: CString)
    ensures FirstOf([a], key) == if a.key == key then Some(a) else None
  {
    assert [a][1..] == [];
  }

  lemma {:induction false} OneByteLaid(header: Header)
    requires header == [AstStruct("s", [OneByteHex()], [])]
    ensures Laid(header, 0) && Fits(header, 0)
  {
    OneByteHexLegal();
    ByteTypeKnown();
    assert header[0].fields[0] == OneByteHex();
    assert StructLegal(header, 0);
    var members := Ideal(header, 0);
    IdealByField(header, 0, 0);
    assert members == [Member(1, 1, 1)];
    assert members[..0] == [];
    assert EndOf(members) == 1;
    assert SizeOf(members) == RoundUp(1, AlignmentOf(members));
  }

  /** A one-element byte array with meta.format=hex is built, and then refused by the validator. */
  lemma {:induction false} OneByteHexIsBuiltButInvalid() returns (header: Header, g: Graph)
    ensures header == [AstStruct("s", [OneByteHex()], [])]
    ensures IsBuilt(header, g) && Closed(g) && |g| == 1 && !Valid(g, 0)
  {
    header := [AstStruct("s", [OneByteHex()], [])];
    OneByteLaid(header);
    g := [Describe(header, 0)];
    BuiltIsClosed(header, g);
    LocallyOkIffPresentable(header, g, 0);
    OneByteHexLegal();
    assert header[0].fields[0] == OneByteHex();
    assert !MetaOnRealArray(OneByteHex());
  }
}
