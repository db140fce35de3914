/**
 Descriptors as they lie in memory. A pointer to a descriptor is an index into an
 immutable table of all descriptors, so sharing and cycles can be represented; a
 (pointer, count) pair is a Table, whose pointer may be NULL.
 */
module Meta {
  import opened Base
  import Digraph

  type Ref = nat

  datatype Table<+T> = NullTable(count: Size) | Rows(items: seq<T>) {
    function Items(): seq<T> {
      if Rows? then items else []
    }

    /** The pointer may be dereferenced for every counted element. */
    predicate Usable() {
      NullTable? ==> count == 0
    }
  }

  datatype Attribute = Attribute(key: Option<CString>, value: Option<CString>)

  datatype Kind =
    | SignedInteger
    | UnsignedInteger
    | Float
    | Double
    | CharArray
    | Struct
    | OutsideEnum

  datatype Field = Field(
    name: Option<CString>,
    kind: Kind,
    offset: Size,
    elementSize: Size,
    elementCount: Size,
    charBufferSize: Size,
    nested: Option<Ref>,
    attributes: Table<Attribute>)

  datatype Descriptor = Descriptor(
    name: Option<CString>,
    size: Size,
    fields: Table<Field>,
    attributes: Table<Attribute>)

  type Graph = seq<Descriptor>

  function Fields(g: Graph, d: Ref): seq<Field>
    requires d < |g|
  {
    g[d].fields.Items()
  }

  /** Every nested pointer that is not NULL points at a descriptor. */
  ghost predicate Closed(g: Graph) {
    forall d, i :: 0 <= d < |g| && 0 <= i < |Fields(g, d)| && Fields(g, d)[i].nested.Some?
      ==> Fields(g, d)[i].nested.value < |g|
  }

  predicate IsInteger(kind: Kind) {
    kind.SignedInteger? || kind.UnsignedInteger?
  }

  predicate SupportedSize(n: nat) {
    n == 1 || n == 2 || n == 4 || n == 8
  }

  /** Bytes a field occupies, over the integers. */
  function Extent(f: Field): nat {
    if f.kind.CharArray? then f.charBufferSize else f.elementCount * f.elementSize
  }

  // ---------------------------------------------------------------- attributes

  /** The first attribute with the given key. */
  function FirstAttribute(attributes: seq<Attribute>, key: CString): (r: Option<Attribute>)
    ensures r.None? <==> forall a :: a in attributes ==> a.key != Some(key)
    ensures r.Some? ==> r.value in attributes && r.value.key == Some(key)
  {
    if attributes == [] then None
    else if attributes[0].key == Some(key) then Some(attributes[0])
    else FirstAttribute(attributes[1..], key)
  }

  function AttributeOf(f: Field, key: CString): Option<Attribute> {
    FirstAttribute(f.attributes.Items(), key)
  }

  predicate IsByteArray(f: Field) {
    IsInteger(f.kind) && f.elementSize == 1 && f.elementCount > 1
  }

  datatype ByteFormat = AsIntegers | AsHex

  /** Only byte arrays may carry meta.kind=bytes or meta.format=hex. */
  function FormatFrom(kind: Option<Attribute>, format: Option<Attribute>, byteArray: bool): Outcome<ByteFormat> {
    if kind.Some? && (kind.value.value != Some("bytes") || !byteArray) then Failure(CorruptDescriptor)
    else if format.None? then Success(AsIntegers)
    else if format.value.value != Some("hex") || !byteArray then Failure(CorruptDescriptor)
    else Success(AsHex)
  }

  /** What meta.kind and meta.format ask for. */
  function ByteFormatOf(f: Field): Outcome<ByteFormat> {
    FormatFrom(AttributeOf(f, "meta.kind"), AttributeOf(f, "meta.format"), IsByteArray(f))
  }

  method FindAttribute(f: Field, key: CString) returns (r: Option<Attribute>)
    ensures r == AttributeOf(f, key)
  {
    var items := f.attributes.Items();
    var i := 0;
    while i < |items|
      invariant 0 <= i <= |items|
      invariant FirstAttribute(items, key) == FirstAttribute(items[i..], key)
    {
      if items[i].key == Some(key) {
        return Some(items[i]);
      }
      i := i + 1;
    }
    return None;
  }

  method FieldByteFormat(f: Field) returns (r: Outcome<ByteFormat>)
    ensures r == ByteFormatOf(f)
  {
    var kind := FindAttribute(f, "meta.kind");
    if kind.Some? {
      if kind.value.value != Some("bytes") || !IsByteArray(f) {
        return Failure(CorruptDescriptor);
      }
    }
    var format := FindAttribute(f, "meta.format");
    if format.None? {
      return Success(AsIntegers);
    }
    if format.value.value != Some("hex") || !IsByteArray(f) {
      return Failure(CorruptDescriptor);
    }
    return Success(AsHex);
  }

  // ---------------------------------------------------------- well-formedness

  /** Every key is present and non-empty, and no two keys are equal. */
  ghost predicate AttributesOk(t: Table<Attribute>) {
    var items := t.Items();
    && t.Usable()
    && (forall i :: 0 <= i < |items| ==> items[i].key.Some? && items[i].key.value != "")
    && (forall i, j :: 0 <= i < j < |items| ==> items[i].key != items[j].key)
  }

  predicate Named(name: Option<CString>) {
    name.Some? && name.value != ""
  }

  ghost predicate ShapeOk(f: Field) {
    && !f.kind.OutsideEnum?
    && f.elementSize > 0 && f.elementCount > 0
    && (IsInteger(f.kind) ==> SupportedSize(f.elementSize))
    && (if f.kind.CharArray? then f.charBufferSize > 0 && f.elementCount == 1 else f.charBufferSize == 0)
  }

  ghost predicate NestingOk(g: Graph, f: Field)
    requires f.nested.Some? ==> f.nested.value < |g|
  {
    if f.kind.Struct? then f.nested.Some? && f.elementSize == g[f.nested.value].size else f.nested.None?
  }

  /** The field stays inside a structure of the given size. */
  ghost predicate Inside(f: Field, size: Size) {
    f.offset + Extent(f) <= size
  }

  ghost predicate FieldOk(g: Graph, f: Field, size: Size)
    requires f.nested.Some? ==> f.nested.value < |g|
  {
    && Named(f.name)
    && ShapeOk(f)
    && Inside(f, size)
    && NestingOk(g, f)
    && AttributesOk(f.attributes)
    && ByteFormatOf(f).Success?
  }

  /** What one descriptor must satisfy without following nested pointers. */
  ghost predicate LocallyOk(g: Graph, d: Ref)
    requires Closed(g) && d < |g|
  {
    && Named(g[d].name)
    && g[d].size > 0
    && g[d].fields.Usable()
    && AttributesOk(g[d].attributes)
    && forall i :: 0 <= i < |Fields(g, d)| ==> FieldOk(g, Fields(g, d)[i], g[d].size)
  }

  /**
   Descriptor d and everything nested in it, to at most the given depth, is locally
   well formed. The depth is the termination measure of every traversal.
   */
  ghost predicate ValidWithin(g: Graph, d: Ref, depth: nat)
    requires Closed(g) && d < |g|
    decreases depth
  {
    && LocallyOk(g, d)
    && forall i :: 0 <= i < |Fields(g, d)| && Fields(g, d)[i].kind.Struct? ==>
      depth > 0 && ValidWithin(g, Fields(g, d)[i].nested.value, depth - 1)
  }

  ghost predicate Valid(g: Graph, d: Ref)
    requires Closed(g) && d < |g|
  {
    exists depth: nat :: ValidWithin(g, d, depth)
  }

  /** Some nesting depth of a valid descriptor; results do not depend on which. */
  ghost function Depth(g: Graph, d: Ref): (k: nat)
    requires Closed(g) && d < |g| && Valid(g, d)
    ensures ValidWithin(g, d, k)
  {
    var k: nat :| ValidWithin(g, d, k);
    k
  }

  /** The nesting relation as a graph. */
  ghost function Nesting(g: Graph): (G: Digraph.Graph)
    ensures |G| == |g|
    ensures Closed(g) ==> Digraph.Closed(G)
  {
    seq(|g|, d requires 0 <= d < |g| =>
      set i | 0 <= i < |Fields(g, d)| && Fields(g, d)[i].nested.Some? && Fields(g, d)[i].kind.Struct?
        :: Fields(g, d)[i].nested.value)
  }
}
