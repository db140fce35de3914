/**
 What the JSON of an instance says, stated on attributes, declared widths and bytes.
 */
module JsonMeaning {
  import opened Base
  import opened Memory
  import opened Meta
  import opened Integers
  import opened Json
  import opened RoundTrip
  import Hex

  // ---------------------------------------------------------------- attributes

  ghost predicate HasAttribute(f: Field, key: CString) {
    exists p :: 0 <= p < |f.attributes.Items()| && f.attributes.Items()[p].key == Some(key)
  }

  /** The first attribute with the key has the value. */
  ghost predicate AttributeSays(items: seq<Attribute>, key: CString, value: Option<CString>) {
    exists p :: 0 <= p < |items| && items[p].key == Some(key) && items[p].value == value
      && forall q :: 0 <= q < p ==> items[q].key != Some(key)
  }

  lemma {:induction false} FirstAttributeSays(items: seq<Attribute>, key: CString, value: Option<CString>)
    ensures FirstAttribute(items, key).Some? <==> exists p :: 0 <= p < |items| && items[p].key == Some(key)
    ensures AttributeSays(items, key, value) <==>
      FirstAttribute(items, key).Some? && FirstAttribute(items, key).value.value == value
    decreases |items|
  {
    if items != [] {
      var rest := items[1..];
      FirstAttributeSays(rest, key, value);
      assert forall p :: 0 <= p < |rest| ==> rest[p] == items[p + 1];
      if items[0].key != Some(key) {
        SaysBehind(items, key, value);
      }
    }
  }

  lemma {:induction false} SaysBehind(items: seq<Attribute>, key: CString, value: Option<CString>)
    requires items != [] && items[0].key != Some(key)
    ensures AttributeSays(items, key, value) <==> AttributeSays(items[1..], key, value)
    ensures (exists p :: 0 <= p < |items| && items[p].key == Some(key)) <==>
      exists p :: 0 <= p < |items[1..]| && items[1..][p].key == Some(key)
  {
    var rest := items[1..];
    if p :| 0 <= p < |rest| && rest[p].key == Some(key) {
      assert items[p + 1].key == Some(key);
    }
    if p :| 0 <= p < |items| && items[p].key == Some(key) {
      assert rest[p - 1].key == Some(key);
    }
    if AttributeSays(rest, key, value) {
      var p :| 0 <= p < |rest| && rest[p].key == Some(key) && rest[p].value == value
        && forall q :: 0 <= q < p ==> rest[q].key != Some(key);
      assert forall q :: 0 < q < p + 1 ==> items[q] == rest[q - 1];
      assert items[p + 1].key == Some(key);
    }
    if AttributeSays(items, key, value) {
      var p :| 0 <= p < |items| && items[p].key == Some(key) && items[p].value == value
        && forall q :: 0 <= q < p ==> items[q].key != Some(key);
      assert forall q :: 0 <= q < p - 1 ==> rest[q] == items[q + 1];
      assert rest[p - 1].key == Some(key);
    }
  }

  lemma {:induction false} AttributeIs(f: Field, key: CString, value: Option<CString>)
    ensures AttributeOf(f, key).Some? <==> HasAttribute(f, key)
    ensures AttributeSays(f.attributes.Items(), key, value) <==>
      AttributeOf(f, key).Some? && AttributeOf(f, key).value.value == value
  {
    FirstAttributeSays(f.attributes.Items(), key, value);
  }

  lemma {:induction false} FlagsMean(f: Field)
    ensures Ignored(f) <==> HasAttribute(f, "json.ignore")
    ensures Required(f) <==> HasAttribute(f, "json.required")
  {
    AttributeIs(f, "json.ignore", None);
    AttributeIs(f, "json.required", None);
  }

  /** meta.kind, if given, says bytes and meta.format, if given, says hex, on an array of one-byte integers. */
  lemma {:induction false} FormatMeans(f: Field)
    ensures ByteFormatOf(f).Success? <==>
      && (HasAttribute(f, "meta.kind") ==>
          AttributeSays(f.attributes.Items(), "meta.kind", Some("bytes")) && IsByteArray(f))
      && (HasAttribute(f, "meta.format") ==>
          AttributeSays(f.attributes.Items(), "meta.format", Some("hex")) && IsByteArray(f))
    ensures ByteFormatOf(f).Success? ==> (AsHexText(f) <==> HasAttribute(f, "meta.format"))
    ensures ByteFormatOf(f).Failure? ==> ByteFormatOf(f).code == CorruptDescriptor
    ensures IsByteArray(f) <==>
      (f.kind == SignedInteger || f.kind == UnsignedInteger) && f.elementSize == 1 && f.elementCount >= 2
  {
    AttributeIs(f, "meta.kind", Some("bytes"));
    AttributeIs(f, "meta.format", Some("hex"));
  }

  /** The key of a field: a non-empty json.name, or else its own name. */
  ghost predicate IsKey(f: Field, key: CString) {
    || (key != "" && AttributeSays(f.attributes.Items(), "json.name", Some(key)))
    || (f.name == Some(key)
        && forall v :: v != "" ==> !AttributeSays(f.attributes.Items(), "json.name", Some(v)))
  }

  lemma {:induction false} KeyIs(f: Field, key: CString)
    requires f.name.Some?
    ensures IsKey(f, key) <==> key == JsonKey(f)
  {
    AttributeIs(f, "json.name", Some(key));
    var a := AttributeOf(f, "json.name");
    if a.Some? && a.value.value.Some? {
      AttributeIs(f, "json.name", a.value.value);
    }
    forall v | v != "" && AttributeSays(f.attributes.Items(), "json.name", Some(v))
      ensures a.Some? && a.value.value == Some(v)
    {
      AttributeIs(f, "json.name", Some(v));
    }
  }

  /** The first member with the key holds the item. */
  ghost predicate Holds(members: seq<Member>, key: CString, item: Json) {
    exists p :: 0 <= p < |members| && members[p].key == key && members[p].value == item
      && forall q :: 0 <= q < p ==> members[q].key != key
  }

  ghost predicate Lacks(members: seq<Member>, key: CString) {
    forall p :: 0 <= p < |members| ==> members[p].key != key
  }

  lemma {:induction false} HoldsBehind(members: seq<Member>, key: CString, item: Json)
    requires members != [] && members[0].key != key && Holds(members[1..], key, item)
    ensures Holds(members, key, item)
  {
    var rest := members[1..];
    var p :| 0 <= p < |rest| && rest[p].key == key && rest[p].value == item
      && forall q :: 0 <= q < p ==> rest[q].key != key;
    assert forall q :: 0 < q < p + 1 ==> members[q] == rest[q - 1];
    assert members[p + 1].key == key;
  }

  lemma {:induction false} HeldBehind(members: seq<Member>, key: CString, item: Json)
    requires members != [] && members[0].key != key && Holds(members, key, item)
    ensures Holds(members[1..], key, item)
  {
    var rest := members[1..];
    var p :| 0 <= p < |members| && members[p].key == key && members[p].value == item
      && forall q :: 0 <= q < p ==> members[q].key != key;
    assert forall q :: 0 <= q < p - 1 ==> rest[q] == members[q + 1];
    assert rest[p - 1].key == key;
  }

  lemma {:induction false} LacksBehind(members: seq<Member>, key: CString)
    requires members != []
    ensures Lacks(members, key) <==> members[0].key != key && Lacks(members[1..], key)
  {
    assert forall p :: 0 < p < |members| ==> members[p] == members[1..][p - 1];
  }

  lemma {:induction false} HoldsNothing(key: CString, item: Json)
    ensures !Holds([], key, item) && Lacks([], key)
  {
  }

  lemma {:induction false} HoldsFirst(members: seq<Member>, key: CString, item: Json)
    requires members != [] && members[0].key == key
    ensures Holds(members, key, item) <==> members[0].value == item
  {
  }

  lemma {:induction false} LookupIs(members: seq<Member>, key: CString, item: Json)
    ensures Holds(members, key, item) <==> Lookup(members, key) == Some(item)
    ensures Lacks(members, key) <==> Lookup(members, key) == None
    decreases |members|
  {
    hide Holds, Lacks;
    if members == [] {
      HoldsNothing(key, item);
    } else {
      var rest := members[1..];
      LookupIs(rest, key, item);
      LacksBehind(members, key);
      if members[0].key == key {
        HoldsFirst(members, key, item);
      } else if Holds(members, key, item) {
        HeldBehind(members, key, item);
      } else if Holds(rest, key, item) {
        HoldsBehind(members, key, item);
      }
    }
  }

  // ------------------------------------------------------------- encoded values

  /** One value: the number the bytes stand for, or the text in front of the first NUL. */
  ghost predicate ScalarMeans(ops: Floats, f: Field, item: Json, src: Bytes, at: nat)
    requires at + ElementExtent(f) <= |src|
  {
    match f.kind
    case SignedInteger =>
      && f.elementSize > 0
      && item == Number(Some(TwosComplement(src[at..at + f.elementSize])),
                        ops.ofInteger(TwosComplement(src[at..at + f.elementSize])))
    case UnsignedInteger =>
      item == Number(Some(Weighted(src[at..at + f.elementSize], f.elementSize)),
                     ops.ofInteger(Weighted(src[at..at + f.elementSize], f.elementSize)))
    case Float => f.elementSize == 4 && item == Number(None, ops.widen(src[at..at + 4]))
    case Double => f.elementSize == 8 && item == Number(None, src[at..at + 8])
    case CharArray => item.Str? && IsTextAt(item.text, src, at, f.charBufferSize)
    case _ => false
  }

  /** The buffer starts with the text and a NUL. */
  ghost predicate IsTextAt(text: CString, src: Bytes, at: nat, size: nat)
    requires at + size <= |src|
  {
    && |text| < size && src[at + |text|] == 0
    && forall c :: 0 <= c < |text| ==> src[at + c] == text[c] as int
  }

  lemma {:induction false} TextIsAt(bytes: Bytes)
    requires TextAt(bytes).Some?
    ensures IsTextAt(TextAt(bytes).value, bytes, 0, |bytes|)
  {
    if bytes[0] != 0 {
      TextIsAt(bytes[1..]);
      var text := TextAt(bytes).value;
      assert forall c :: 0 < c < |text| ==> text[c] == TextAt(bytes[1..]).value[c - 1];
    }
  }

  lemma {:induction false} ScalarIsMeant(ops: Floats, f: Field, src: Bytes, at: nat)
    requires ShapeOk(f) && at + ElementExtent(f) <= |src|
    requires ScalarToJson(ops, f, src, at).Success?
    ensures ScalarMeans(ops, f, ScalarToJson(ops, f, src, at).value, src, at)
  {
    if IsInteger(f.kind) {
      SignedIsTwosComplement(src[at..at + f.elementSize]);
    } else if f.kind.CharArray? {
      var buffer := src[at..at + f.charBufferSize];
      TextIsAt(buffer);
      assert forall c :: 0 <= c < |buffer| ==> buffer[c] == src[at + c];
    }
  }

  ghost predicate ElementMeans(ops: Floats, g: Graph, f: Field, item: Json, src: Bytes, base: nat, k: nat, i: nat)
    requires Ready(g, f, src, base, k) && i < f.elementCount
    decreases k, 0
  {
    ElementReady(g, f, src, base, k, i);
    var at := base + f.offset + i * f.elementSize;
    if f.kind.Struct? then StructMeans(ops, g, f.nested.value, item, src, at, k - 1)
    else ScalarMeans(ops, f, item, src, at)
  }

  ghost predicate ItemsMean(
      ops: Floats, g: Graph, f: Field, items: seq<Json>, src: Bytes, base: nat, k: nat, i: nat)
    requires Ready(g, f, src, base, k) && i <= f.elementCount
    decreases k, 1, f.elementCount - i
  {
    if i == f.elementCount then items == []
    else
      items != [] && ElementMeans(ops, g, f, items[0], src, base, k, i)
      && ItemsMean(ops, g, f, items[1..], src, base, k, i + 1)
  }

  /** Hex text for meta.format, one value for a text or a single element, otherwise an array of all elements. */
  ghost predicate FieldMeans(ops: Floats, g: Graph, f: Field, item: Json, src: Bytes, base: nat, k: nat)
    requires Ready(g, f, src, base, k)
    decreases k, 2
  {
    if HasAttribute(f, "meta.format") then
      && item.Str? && base + f.offset + f.elementCount <= |src| && |item.text| == 3 * f.elementCount - 1
      && Hex.Spells(item.text, src[base + f.offset..base + f.offset + f.elementCount])
    else if f.kind.CharArray? || f.elementCount == 1 then ElementMeans(ops, g, f, item, src, base, k, 0)
    else item.Arr? && ItemsMean(ops, g, f, item.items, src, base, k, 0)
  }

  /** In field order, one member for each field without json.ignore, under its key. */
  ghost predicate MembersMean(
      ops: Floats, g: Graph, d: Ref, members: seq<Member>, src: Bytes, base: nat, k: nat, i: nat)
    requires StructReady(g, d, src, base, k) && i <= |Fields(g, d)|
    decreases k, 3, |Fields(g, d)| - i
  {
    if i == |Fields(g, d)| then members == []
    else
      FieldsReady(g, d, src, base, k, i);
      var f := Fields(g, d)[i];
      if HasAttribute(f, "json.ignore") then MembersMean(ops, g, d, members, src, base, k, i + 1)
      else
        && members != [] && IsKey(f, members[0].key)
        && FieldMeans(ops, g, f, members[0].value, src, base, k)
        && MembersMean(ops, g, d, members[1..], src, base, k, i + 1)
  }

  ghost predicate StructMeans(ops: Floats, g: Graph, d: Ref, json: Json, src: Bytes, base: nat, k: nat)
    requires StructReady(g, d, src, base, k)
    decreases k, 4
  {
    json.Obj? && MembersMean(ops, g, d, json.members, src, base, k, 0)
  }

  lemma {:induction false} ElementIsMeant(ops: Floats, g: Graph, f: Field, src: Bytes, base: nat, k: nat, i: nat)
    requires Ready(g, f, src, base, k) && i < f.elementCount
    requires ElementToJson(ops, g, f, src, base, k, i).Success?
    ensures ElementMeans(ops, g, f, ElementToJson(ops, g, f, src, base, k, i).value, src, base, k, i)
    decreases k, 0
  {
    ElementReady(g, f, src, base, k, i);
    if f.kind.Struct? {
      StructIsMeant(ops, g, f.nested.value, src, At(f, base, i), k - 1);
    } else {
      ScalarIsMeant(ops, f, src, At(f, base, i));
    }
  }

  lemma {:induction false} ItemsAreMeant(ops: Floats, g: Graph, f: Field, src: Bytes, base: nat, k: nat, i: nat)
    requires Ready(g, f, src, base, k) && i <= f.elementCount
    requires ItemsToJson(ops, g, f, src, base, k, i).Success?
    ensures ItemsMean(ops, g, f, ItemsToJson(ops, g, f, src, base, k, i).value, src, base, k, i)
    decreases k, 1, f.elementCount - i
  {
    if i < f.elementCount {
      ElementIsMeant(ops, g, f, src, base, k, i);
      ItemsAreMeant(ops, g, f, src, base, k, i + 1);
      var item := ElementToJson(ops, g, f, src, base, k, i).value;
      var rest := ItemsToJson(ops, g, f, src, base, k, i + 1).value;
      assert ([item] + rest)[0] == item && ([item] + rest)[1..] == rest;
    }
  }

  lemma {:induction false} HexIsMeant(f: Field, src: Bytes, base: nat)
    requires AsHexText(f) && base + f.offset + Extent(f) <= |src|
    ensures var bytes := src[base + f.offset..base + f.offset + f.elementCount];
      && bytes == src[At(f, base, 0)..At(f, base, f.elementCount)]
      && |Hex.HexText(bytes)| == 3 * f.elementCount - 1 && Hex.Spells(Hex.HexText(bytes), bytes)
  {
    HexIsByteArray(f, base);
    var bytes := src[base + f.offset..base + f.offset + f.elementCount];
    Hex.HexTextLength(bytes);
    Hex.PrintedSpells(bytes);
  }

  lemma {:induction false} FieldIsMeant(ops: Floats, g: Graph, f: Field, src: Bytes, base: nat, k: nat)
    requires Ready(g, f, src, base, k) && FieldToJson(ops, g, f, src, base, k).Success?
    ensures FieldMeans(ops, g, f, FieldToJson(ops, g, f, src, base, k).value, src, base, k)
    decreases k, 2
  {
    FormatMeans(f);
    if AsHexText(f) {
      HexIsMeant(f, src, base);
    } else if AsOneItem(f) {
      ElementIsMeant(ops, g, f, src, base, k, 0);
    } else {
      ItemsAreMeant(ops, g, f, src, base, k, 0);
    }
  }

  lemma {:induction false} MembersAreMeant(ops: Floats, g: Graph, d: Ref, src: Bytes, base: nat, k: nat, i: nat)
    requires StructReady(g, d, src, base, k) && i <= |Fields(g, d)|
    requires MembersToJson(ops, g, d, src, base, k, i).Success?
    ensures MembersMean(ops, g, d, MembersToJson(ops, g, d, src, base, k, i).value, src, base, k, i)
    decreases k, 3, |Fields(g, d)| - i
  {
    if i < |Fields(g, d)| {
      hide FieldMeans, FieldToJson;
      var f := Fields(g, d)[i];
      MembersSplit(ops, g, d, src, base, k, i);
      MembersAreMeant(ops, g, d, src, base, k, i + 1);
      FlagsMean(f);
      if !Ignored(f) {
        FieldIsMeant(ops, g, f, src, base, k);
        KeyIs(f, JsonKey(f));
        var rest := MembersToJson(ops, g, d, src, base, k, i + 1).value;
        var first := Member(JsonKey(f), FieldToJson(ops, g, f, src, base, k).value);
        assert ([first] + rest)[0] == first && ([first] + rest)[1..] == rest;
      }
    }
  }

  /** What encoding produces means the instance. */
  lemma {:induction false} StructIsMeant(ops: Floats, g: Graph, d: Ref, src: Bytes, base: nat, k: nat)
    requires StructReady(g, d, src, base, k) && StructToJson(ops, g, d, src, base, k).Success?
    ensures StructMeans(ops, g, d, StructToJson(ops, g, d, src, base, k).value, src, base, k)
    decreases k, 4
  {
    MembersAreMeant(ops, g, d, src, base, k, 0);
  }

  /** A field is decoded from the first member under its key, and from nothing else. */
  lemma {:induction false} KeyReachesField(
      ops: Floats, g: Graph, f: Field, members: seq<Member>, key: CString, item: Json, mem: Bytes, base: nat, k: nat)
    requires Ready(g, f, mem, base, k) && IsKey(f, key) && Holds(members, key, item)
    ensures FieldFromJson(ops, g, f, members, mem, base, k)
      == FieldFromJson(ops, g, f, [Member(key, item)], mem, base, k)
  {
    KeyIs(f, key);
    LookupIs(members, key, item);
    assert Lookup([Member(key, item)], key) == Some(item);
  }
}
