/**
 JSON trees as cJSON holds them, and what encoding an instance into one and decoding
 it back mean. Floating-point conversions are left to the hardware: they are
 parameters, and a value survives the trip when they restore its bytes.
 */
module Json {
  import opened Base
  import opened Memory
  import opened Meta
  import opened Integers
  import Hex

  type Float4 = b: Bytes | |b| == 4 witness [0, 0, 0, 0]

  type Float8 = b: Bytes | |b| == 8 witness [0, 0, 0, 0, 0, 0, 0, 0]

  datatype Floats = Floats(widen: Float4 -> Float8, narrow: Float8 -> Float4, ofInteger: int -> Float8)

  datatype Json =
    | Null
    | Bool(value: bool)
    | Number(exact: Option<int>, double: Float8)
    | Str(text: CString)
    | Arr(items: seq<Json>)
    | Obj(members: seq<Member>)

  datatype Member = Member(key: CString, value: Json)

  /** cJSON_GetObjectItemCaseSensitive: the first member with the key. */
  function Lookup(members: seq<Member>, key: CString): (r: Option<Json>)
    ensures r.None? <==> forall m :: m in members ==> m.key != key
  {
    if members == [] then None
    else if members[0].key == key then Some(members[0].value)
    else Lookup(members[1..], key)
  }

  /** cJSON_GetArraySize: the number of items converted to int. */
  function ArraySize(items: seq<Json>): int {
    (|items| + 0x8000_0000) % 0x1_0000_0000 - 0x8000_0000
  }

  // --------------------------------------------------------- field properties

  function JsonKey(f: Field): CString
    requires f.name.Some?
  {
    var a := AttributeOf(f, "json.name");
    if a.Some? && Named(a.value.value) then a.value.value.value else f.name.value
  }

  predicate Ignored(f: Field) {
    AttributeOf(f, "json.ignore").Some?
  }

  predicate Required(f: Field) {
    AttributeOf(f, "json.required").Some?
  }

  predicate AsHexText(f: Field) {
    ByteFormatOf(f) == Success(AsHex)
  }

  /** The field is converted as one item rather than as an array of items. */
  predicate AsOneItem(f: Field) {
    f.kind.CharArray? || f.elementCount <= 1
  }

  /** Bytes one element occupies. */
  function ElementExtent(f: Field): nat {
    if f.kind.CharArray? then f.charBufferSize else f.elementSize
  }

  /** Where element i of a field lies. */
  function At(f: Field, base: nat, i: nat): nat {
    base + f.offset + i * f.elementSize
  }

  lemma {:induction false} ElementFits(f: Field, base: nat, i: nat)
    requires ShapeOk(f) && i < f.elementCount
    ensures At(f, base, i) + ElementExtent(f) <= base + f.offset + Extent(f)
  {
    if !f.kind.CharArray? {
      assert (i + 1) * f.elementSize == i * f.elementSize + f.elementSize;
      assert (i + 1) * f.elementSize <= f.elementCount * f.elementSize;
    }
  }

  /** A field of a valid descriptor that lies inside the memory. */
  ghost predicate Ready(g: Graph, f: Field, mem: Bytes, base: nat, k: nat) {
    && Closed(g) && (f.nested.Some? ==> f.nested.value < |g|)
    && (exists size: Size :: FieldOk(g, f, size))
    && base + f.offset + Extent(f) <= |mem|
    && (f.kind.Struct? ==> k > 0 && ValidWithin(g, f.nested.value, k - 1))
  }

  ghost predicate StructReady(g: Graph, d: Ref, mem: Bytes, base: nat, k: nat) {
    Closed(g) && d < |g| && ValidWithin(g, d, k) && base + g[d].size <= |mem|
  }

  lemma {:induction false} FieldsReady(g: Graph, d: Ref, mem: Bytes, base: nat, k: nat, i: nat)
    requires StructReady(g, d, mem, base, k) && i < |Fields(g, d)|
    ensures Ready(g, Fields(g, d)[i], mem, base, k)
  {
    assert FieldOk(g, Fields(g, d)[i], g[d].size);
  }

  lemma {:induction false} ElementReady(g: Graph, f: Field, mem: Bytes, base: nat, k: nat, i: nat)
    requires Ready(g, f, mem, base, k) && i < f.elementCount
    ensures At(f, base, i) + ElementExtent(f) <= |mem|
    ensures f.kind.Struct? ==> StructReady(g, f.nested.value, mem, At(f, base, i), k - 1)
  {
    ElementFits(f, base, i);
  }

  // ----------------------------------------------------------------- encoding

  /** The C string in front of the first zero byte. */
  function TextAt(bytes: Bytes): Option<CString> {
    if bytes == [] then None
    else if bytes[0] == 0 then Some("")
    else
      var rest := TextAt(bytes[1..]);
      if rest.None? then None else Some([bytes[0] as char] + rest.value)
  }

  /** The bytes of a C string with its terminator. */
  function TextBytes(text: CString): (r: Bytes)
    ensures |r| == |text| + 1
  {
    if text == [] then [0] else [text[0] as int] + TextBytes(text[1..])
  }

  ghost function ScalarToJson(ops: Floats, f: Field, mem: Bytes, at: nat): Outcome<Json>
    requires at + ElementExtent(f) <= |mem|
  {
    match f.kind
    case SignedInteger =>
      (match LoadSigned(mem, at, f.elementSize)
       case Success(v) => Success(Number(Some(v), ops.ofInteger(v)))
       case Failure(code) => Failure(code))
    case UnsignedInteger =>
      (match LoadUnsigned(mem, at, f.elementSize)
       case Success(v) => Success(Number(Some(v), ops.ofInteger(v)))
       case Failure(code) => Failure(code))
    case Float =>
      if f.elementSize != 4 then Failure(Unsupported) else Success(Number(None, ops.widen(mem[at..at + 4])))
    case Double =>
      if f.elementSize != 8 then Failure(Unsupported) else Success(Number(None, mem[at..at + 8]))
    case CharArray =>
      (match TextAt(mem[at..at + f.charBufferSize])
       case Some(text) => Success(Str(text))
       case None => Failure(InvalidEncoding))
    case _ => Failure(InvalidArgument)
  }

  function Prepend<T>(items: seq<T>, rest: Outcome<seq<T>>): Outcome<seq<T>> {
    match rest
    case Success(more) => Success(items + more)
    case Failure(code) => Failure(code)
  }

  ghost function ElementToJson(ops: Floats, g: Graph, f: Field, mem: Bytes, base: nat, k: nat, i: nat): Outcome<Json>
    requires Ready(g, f, mem, base, k) && i < f.elementCount
    decreases k, 0
  {
    ElementReady(g, f, mem, base, k, i);
    if f.kind.Struct? then StructToJson(ops, g, f.nested.value, mem, At(f, base, i), k - 1)
    else ScalarToJson(ops, f, mem, At(f, base, i))
  }

  /** The items of an array field from element i on. */
  ghost function ItemsToJson(ops: Floats, g: Graph, f: Field, mem: Bytes, base: nat, k: nat, i: nat): Outcome<seq<Json>>
    requires Ready(g, f, mem, base, k) && i <= f.elementCount
    decreases k, 1, f.elementCount - i
  {
    if i == f.elementCount then Success([])
    else
      match ElementToJson(ops, g, f, mem, base, k, i)
      case Failure(code) => Failure(code)
      case Success(item) => Prepend([item], ItemsToJson(ops, g, f, mem, base, k, i + 1))
  }

  ghost function FieldToJson(ops: Floats, g: Graph, f: Field, mem: Bytes, base: nat, k: nat): Outcome<Json>
    requires Ready(g, f, mem, base, k)
    decreases k, 2
  {
    if AsHexText(f) then
      ElementReady(g, f, mem, base, k, f.elementCount - 1);
      match Hex.HexTextSize(f.elementCount)
      case Failure(code) => Failure(code)
      case Success(_) => Success(Str(Hex.HexText(mem[At(f, base, 0)..At(f, base, f.elementCount)])))
    else if AsOneItem(f) then ElementToJson(ops, g, f, mem, base, k, 0)
    else
      match ItemsToJson(ops, g, f, mem, base, k, 0)
      case Failure(code) => Failure(code)
      case Success(items) => Success(Arr(items))
  }

  /** The members of a structure from field i on; ignored fields are left out. */
  ghost function MembersToJson(ops: Floats, g: Graph, d: Ref, mem: Bytes, base: nat, k: nat, i: nat): Outcome<seq<Member>>
    requires StructReady(g, d, mem, base, k) && i <= |Fields(g, d)|
    decreases k, 3, |Fields(g, d)| - i
  {
    if i == |Fields(g, d)| then Success([])
    else
      var f := Fields(g, d)[i];
      if Ignored(f) then MembersToJson(ops, g, d, mem, base, k, i + 1)
      else
        FieldsReady(g, d, mem, base, k, i);
        match FieldToJson(ops, g, f, mem, base, k)
        case Failure(code) => Failure(code)
        case Success(item) => Prepend([Member(JsonKey(f), item)], MembersToJson(ops, g, d, mem, base, k, i + 1))
  }

  /** The JSON object of an instance of descriptor d at `base`, or the first error. */
  ghost function StructToJson(ops: Floats, g: Graph, d: Ref, mem: Bytes, base: nat, k: nat): Outcome<Json>
    requires StructReady(g, d, mem, base, k)
    decreases k, 4
  {
    match MembersToJson(ops, g, d, mem, base, k, 0)
    case Failure(code) => Failure(code)
    case Success(members) => Success(Obj(members))
  }

  // ----------------------------------------------------------------- decoding

  ghost function ScalarFromJson(ops: Floats, f: Field, item: Json, mem: Bytes, at: nat): (r: (Code, Bytes))
    requires at + ElementExtent(f) <= |mem|
    ensures |r.1| == |mem|
  {
    match f.kind
    case SignedInteger =>
      if !item.Number? then (InvalidArgument, mem)
      else if item.exact.None? || !(-0x8000_0000_0000_0000 <= item.exact.value <= 0x7FFF_FFFF_FFFF_FFFF)
        then (OutOfRange, mem)
      else StoreSignedTo(mem, at, f.elementSize, item.exact.value)
    case UnsignedInteger =>
      if !item.Number? then (InvalidArgument, mem)
      else if item.exact.None? || !(0 <= item.exact.value <= 0xFFFF_FFFF_FFFF_FFFF)
        then (OutOfRange, mem)
      else StoreUnsignedTo(mem, at, f.elementSize, item.exact.value)
    case Float =>
      if f.elementSize != 4 || !item.Number? then (InvalidArgument, mem)
      else (Ok, Overwrite(mem, at, ops.narrow(item.double)))
    case Double =>
      if f.elementSize != 8 || !item.Number? then (InvalidArgument, mem)
      else (Ok, Overwrite(mem, at, item.double))
    case CharArray =>
      if !item.Str? then (InvalidArgument, mem)
      else if |item.text| >= f.charBufferSize then (BufferTooSmall, mem)
      else (Ok, Overwrite(mem, at, TextBytes(item.text)))
    case _ => (InvalidArgument, mem)
  }

  ghost function ElementFromJson(ops: Floats, g: Graph, f: Field, item: Json, mem: Bytes, base: nat, k: nat, i: nat)
    : (r: (Code, Bytes))
    requires Ready(g, f, mem, base, k) && i < f.elementCount
    ensures |r.1| == |mem|
    decreases k, 0
  {
    ElementReady(g, f, mem, base, k, i);
    if f.kind.Struct? then StructFromJson(ops, g, f.nested.value, item, mem, At(f, base, i), k - 1)
    else ScalarFromJson(ops, f, item, mem, At(f, base, i))
  }

  ghost function ItemsFromJson(ops: Floats, g: Graph, f: Field, items: seq<Json>, mem: Bytes, base: nat, k: nat, i: nat)
    : (r: (Code, Bytes))
    requires Ready(g, f, mem, base, k) && i <= f.elementCount <= |items|
    ensures |r.1| == |mem|
    decreases k, 1, f.elementCount - i
  {
    if i == f.elementCount then (Ok, mem)
    else
      var (code, after) := ElementFromJson(ops, g, f, items[i], mem, base, k, i);
      if code != Ok then (code, after) else ItemsFromJson(ops, g, f, items, after, base, k, i + 1)
  }

  ghost function FieldFromJson(ops: Floats, g: Graph, f: Field, members: seq<Member>, mem: Bytes, base: nat, k: nat)
    : (r: (Code, Bytes))
    requires Ready(g, f, mem, base, k)
    ensures |r.1| == |mem|
    decreases k, 2
  {
    if Ignored(f) then (Ok, mem)
    else
      match Lookup(members, JsonKey(f))
      case None => (if Required(f) then MissingRequired else Ok, mem)
      case Some(item) =>
        if AsHexText(f) then
          ElementReady(g, f, mem, base, k, f.elementCount - 1);
          if !item.Str? then (InvalidArgument, mem)
          else
            match Hex.DecodeHex(item.text, f.elementCount)
            case Some(bytes) => (Ok, Overwrite(mem, At(f, base, 0), bytes))
            case None => (InvalidEncoding, mem)
        else if AsOneItem(f) then ElementFromJson(ops, g, f, item, mem, base, k, 0)
        else if !item.Arr? || ArraySize(item.items) != f.elementCount then (InvalidArgument, mem)
        else ItemsFromJson(ops, g, f, item.items, mem, base, k, 0)
  }

  ghost function FieldsFromJson(ops: Floats, g: Graph, d: Ref, members: seq<Member>, mem: Bytes, base: nat, k: nat, i: nat)
    : (r: (Code, Bytes))
    requires StructReady(g, d, mem, base, k) && i <= |Fields(g, d)|
    ensures |r.1| == |mem|
    decreases k, 3, |Fields(g, d)| - i
  {
    if i == |Fields(g, d)| then (Ok, mem)
    else
      FieldsReady(g, d, mem, base, k, i);
      var (code, after) := FieldFromJson(ops, g, Fields(g, d)[i], members, mem, base, k);
      if code != Ok then (code, after) else FieldsFromJson(ops, g, d, members, after, base, k, i + 1)
  }

  /** The result code and the memory after decoding; fields already decoded stay changed on an error. */
  ghost function StructFromJson(ops: Floats, g: Graph, d: Ref, json: Json, mem: Bytes, base: nat, k: nat): (r: (Code, Bytes))
    requires StructReady(g, d, mem, base, k)
    ensures |r.1| == |mem|
    decreases k, 4
  {
    if json.Obj? then FieldsFromJson(ops, g, d, json.members, mem, base, k, 0) else (InvalidArgument, mem)
  }
}
