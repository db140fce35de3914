/**
 Which JSON trees are accepted, with which code the others are refused, and what an
 accepted tree leaves in memory.
 */
module JsonDecoding {
  import opened Base
  import opened Memory
  import opened Meta
  import opened Integers
  import opened Json
  import opened JsonMeaning
  import Hex
  import Transport

  // ---------------------------------------------------------------- acceptance

  ghost predicate InSignedRange(size: nat, v: int) {
    || (size == 1 && -0x80 <= v <= 0x7F)
    || (size == 2 && -0x8000 <= v <= 0x7FFF)
    || (size == 4 && -0x8000_0000 <= v <= 0x7FFF_FFFF)
    || (size == 8 && -0x8000_0000_0000_0000 <= v <= 0x7FFF_FFFF_FFFF_FFFF)
  }

  ghost predicate InUnsignedRange(size: nat, v: int) {
    || (size == 1 && 0 <= v <= 0xFF)
    || (size == 2 && 0 <= v <= 0xFFFF)
    || (size == 4 && 0 <= v <= 0xFFFF_FFFF)
    || (size == 8 && 0 <= v <= 0xFFFF_FFFF_FFFF_FFFF)
  }

  /** An exact integer of the width and sign, a number for a floating-point field, a text that fits. */
  ghost predicate ScalarAccepts(f: Field, item: Json) {
    match f.kind
    case SignedInteger => item.Number? && item.exact.Some? && InSignedRange(f.elementSize, item.exact.value)
    case UnsignedInteger => item.Number? && item.exact.Some? && InUnsignedRange(f.elementSize, item.exact.value)
    case Float => item.Number? && f.elementSize == 4
    case Double => item.Number? && f.elementSize == 8
    case CharArray => item.Str? && |item.text| < f.charBufferSize
    case _ => false
  }

  ghost predicate ElementAccepts(g: Graph, f: Field, item: Json, k: nat)
    requires Transport.Placeable(g, f, k)
    decreases k, 0
  {
    if f.kind.Struct? then StructAccepts(g, f.nested.value, item, k - 1) else ScalarAccepts(f, item)
  }

  ghost predicate ItemsAccept(g: Graph, f: Field, items: seq<Json>, k: nat, i: nat)
    requires Transport.Placeable(g, f, k) && i <= f.elementCount <= |items|
    decreases k, 1, f.elementCount - i
  {
    i == f.elementCount || (ElementAccepts(g, f, items[i], k) && ItemsAccept(g, f, items, k, i + 1))
  }

  /** cJSON counts items in an int, so an array is as long as the field modulo 2 to the power 32. */
  ghost predicate LengthAccepts(n: nat, count: nat) {
    count <= 0x7FFF_FFFF && n % 0x1_0000_0000 == count
  }

  ghost predicate ItemAccepts(g: Graph, f: Field, item: Json, k: nat)
    requires Transport.Placeable(g, f, k)
    decreases k, 2
  {
    if HasAttribute(f, "meta.format") then
      item.Str? && exists bytes: Bytes :: |bytes| == f.elementCount && Hex.Spells(item.text, bytes)
    else if f.kind.CharArray? || f.elementCount == 1 then ElementAccepts(g, f, item, k)
    else item.Arr? && LengthAccepts(|item.items|, f.elementCount) && ItemsAccept(g, f, item.items, k, 0)
  }

  /** Without json.ignore: an absent key is allowed unless required, a present item must fit. */
  ghost predicate FieldAccepts(g: Graph, f: Field, members: seq<Member>, k: nat)
    requires Transport.Placeable(g, f, k)
    decreases k, 3
  {
    HasAttribute(f, "json.ignore") ||
    exists key :: IsKey(f, key) &&
      if Lacks(members, key) then !HasAttribute(f, "json.required")
      else exists item :: Holds(members, key, item) && ItemAccepts(g, f, item, k)
  }

  ghost predicate FieldsAccept(g: Graph, d: Ref, members: seq<Member>, k: nat, i: nat)
    requires Closed(g) && d < |g| && ValidWithin(g, d, k) && i <= |Fields(g, d)|
    decreases k, 4, |Fields(g, d)| - i
  {
    i == |Fields(g, d)| || (
      Transport.FieldPlaceable(g, d, k, i);
      FieldAccepts(g, Fields(g, d)[i], members, k) && FieldsAccept(g, d, members, k, i + 1))
  }

  ghost predicate StructAccepts(g: Graph, d: Ref, json: Json, k: nat)
    requires Closed(g) && d < |g| && ValidWithin(g, d, k)
    decreases k, 5
  {
    json.Obj? && FieldsAccept(g, d, json.members, k, 0)
  }

  lemma {:induction false} RangesAgree(size: nat, v: int)
    requires SupportedSize(size)
    ensures FitsSigned(size, v) <==> InSignedRange(size, v)
    ensures FitsUnsigned(size, v) <==> InUnsignedRange(size, v)
  {
    SpanOfSupported();
  }

  lemma {:induction false} ScalarAccepted(ops: Floats, f: Field, item: Json, mem: Bytes, at: nat)
    requires ShapeOk(f) && !f.kind.Struct? && at + ElementExtent(f) <= |mem|
    ensures ScalarFromJson(ops, f, item, mem, at).0 == Ok <==> ScalarAccepts(f, item)
  {
    if IsInteger(f.kind) && item.Number? && item.exact.Some? {
      RangesAgree(f.elementSize, item.exact.value);
    }
  }

  lemma {:induction false} ReadyIsPlaceable(g: Graph, f: Field, mem: Bytes, base: nat, k: nat)
    requires Ready(g, f, mem, base, k)
    ensures Transport.Placeable(g, f, k) && f.elementCount >= 1 && ShapeOk(f) && f.name.Some?
    ensures ByteFormatOf(f).Success?
  {
  }

  lemma {:induction false} ElementAccepted(
      ops: Floats, g: Graph, f: Field, item: Json, mem: Bytes, base: nat, k: nat, i: nat)
    requires Ready(g, f, mem, base, k) && i < f.elementCount
    ensures Transport.Placeable(g, f, k)
    ensures ElementFromJson(ops, g, f, item, mem, base, k, i).0 == Ok <==> ElementAccepts(g, f, item, k)
    decreases k, 0
  {
    ReadyIsPlaceable(g, f, mem, base, k);
    ElementReady(g, f, mem, base, k, i);
    if f.kind.Struct? {
      StructAccepted(ops, g, f.nested.value, item, mem, At(f, base, i), k - 1);
    } else {
      ScalarAccepted(ops, f, item, mem, At(f, base, i));
    }
  }

  lemma {:induction false} ItemsAccepted(
      ops: Floats, g: Graph, f: Field, items: seq<Json>, mem: Bytes, base: nat, k: nat, i: nat)
    requires Ready(g, f, mem, base, k) && i <= f.elementCount <= |items|
    ensures Transport.Placeable(g, f, k)
    ensures ItemsFromJson(ops, g, f, items, mem, base, k, i).0 == Ok <==> ItemsAccept(g, f, items, k, i)
    decreases k, 1, f.elementCount - i
  {
    ReadyIsPlaceable(g, f, mem, base, k);
    if i < f.elementCount {
      ElementAccepted(ops, g, f, items[i], mem, base, k, i);
      ItemsAccepted(ops, g, f, items, ElementFromJson(ops, g, f, items[i], mem, base, k, i).1, base, k, i + 1);
    }
  }

  lemma {:induction false} LengthsAgree(items: seq<Json>, count: Size)
    ensures ArraySize(items) == count <==> LengthAccepts(|items|, count)
  {
    var n := |items|;
    var q, r := n / 0x1_0000_0000, n % 0x1_0000_0000;
    assert n == q * 0x1_0000_0000 + r;
    if r < 0x8000_0000 {
      assert (n + 0x8000_0000) % 0x1_0000_0000 == r + 0x8000_0000;
    } else {
      assert (n + 0x8000_0000) % 0x1_0000_0000 == r - 0x8000_0000;
    }
  }

  lemma {:induction false} HexAccepted(text: CString, n: nat)
    ensures Hex.DecodeHex(text, n).Some? <==> exists bytes: Bytes :: |bytes| == n && Hex.Spells(text, bytes)
  {
    if Hex.DecodeHex(text, n).Some? {
      Hex.DecodesIffSpells(text, n, Hex.DecodeHex(text, n).value);
    }
    if bytes: Bytes :| |bytes| == n && Hex.Spells(text, bytes) {
      Hex.DecodesIffSpells(text, n, bytes);
    }
  }

  /** A present item decides the field. */
  lemma {:induction false} ItemAccepted(
      ops: Floats, g: Graph, f: Field, members: seq<Member>, item: Json, mem: Bytes, base: nat, k: nat)
    requires Ready(g, f, mem, base, k) && !Ignored(f) && Lookup(members, JsonKey(f)) == Some(item)
    ensures Transport.Placeable(g, f, k)
    ensures FieldFromJson(ops, g, f, members, mem, base, k).0 == Ok <==> ItemAccepts(g, f, item, k)
    decreases k, 2
  {
    ReadyIsPlaceable(g, f, mem, base, k);
    FormatMeans(f);
    if AsHexText(f) {
      if item.Str? {
        HexAccepted(item.text, f.elementCount);
      }
    } else if AsOneItem(f) {
      ElementAccepted(ops, g, f, item, mem, base, k, 0);
    } else if item.Arr? {
      LengthsAgree(item.items, f.elementCount);
      if ArraySize(item.items) == f.elementCount {
        ItemsAccepted(ops, g, f, item.items, mem, base, k, 0);
      }
    }
  }

  /** The field's verdict, by the item under its one key. */
  lemma {:induction false} FieldAcceptsByKey(g: Graph, f: Field, members: seq<Member>, k: nat)
    requires Transport.Placeable(g, f, k) && f.name.Some? && !Ignored(f)
    ensures FieldAccepts(g, f, members, k) <==>
      match Lookup(members, JsonKey(f))
      case None => !Required(f)
      case Some(item) => ItemAccepts(g, f, item, k)
  {
    hide ItemAccepts;
    FlagsMean(f);
    forall key ensures IsKey(f, key) <==> key == JsonKey(f) {
      KeyIs(f, key);
    }
    forall item ensures Holds(members, JsonKey(f), item) <==> Lookup(members, JsonKey(f)) == Some(item)
      ensures Lacks(members, JsonKey(f)) <==> Lookup(members, JsonKey(f)) == None
    {
      LookupIs(members, JsonKey(f), item);
    }
    LookupIs(members, JsonKey(f), Null);
    if Lookup(members, JsonKey(f)).Some? {
      LookupIs(members, JsonKey(f), Lookup(members, JsonKey(f)).value);
    }
    assert IsKey(f, JsonKey(f));
  }

  lemma {:induction false} FieldAccepted(
      ops: Floats, g: Graph, f: Field, members: seq<Member>, mem: Bytes, base: nat, k: nat)
    requires Ready(g, f, mem, base, k)
    ensures Transport.Placeable(g, f, k)
    ensures FieldFromJson(ops, g, f, members, mem, base, k).0 == Ok <==> FieldAccepts(g, f, members, k)
    decreases k, 3
  {
    hide ItemAccepts, FieldAccepts;
    ReadyIsPlaceable(g, f, mem, base, k);
    if Ignored(f) {
      IgnoredAccepts(g, f, members, k);
    } else {
      FieldAcceptsByKey(g, f, members, k);
      if Lookup(members, JsonKey(f)).Some? {
        ItemAccepted(ops, g, f, members, Lookup(members, JsonKey(f)).value, mem, base, k);
      }
    }
  }

  lemma {:induction false} IgnoredAccepts(g: Graph, f: Field, members: seq<Member>, k: nat)
    requires Transport.Placeable(g, f, k) && Ignored(f)
    ensures FieldAccepts(g, f, members, k)
  {
    FlagsMean(f);
  }

  lemma {:induction false} FieldsAccepted(
      ops: Floats, g: Graph, d: Ref, members: seq<Member>, mem: Bytes, base: nat, k: nat, i: nat)
    requires StructReady(g, d, mem, base, k) && i <= |Fields(g, d)|
    ensures FieldsFromJson(ops, g, d, members, mem, base, k, i).0 == Ok <==> FieldsAccept(g, d, members, k, i)
    decreases k, 4, |Fields(g, d)| - i
  {
    hide FieldAccepts, FieldFromJson;
    if i < |Fields(g, d)| {
      FieldsReady(g, d, mem, base, k, i);
      Transport.FieldPlaceable(g, d, k, i);
      FieldAccepted(ops, g, Fields(g, d)[i], members, mem, base, k);
      FieldsAccepted(ops, g, d, members, FieldFromJson(ops, g, Fields(g, d)[i], members, mem, base, k).1, base, k, i + 1);
    }
  }

  /** Decoding succeeds exactly on the accepted trees, whatever the memory held before. */
  lemma {:induction false} StructAccepted(ops: Floats, g: Graph, d: Ref, json: Json, mem: Bytes, base: nat, k: nat)
    requires StructReady(g, d, mem, base, k)
    ensures StructFromJson(ops, g, d, json, mem, base, k).0 == Ok <==> StructAccepts(g, d, json, k)
    decreases k, 5
  {
    if json.Obj? {
      FieldsAccepted(ops, g, d, json.members, mem, base, k, 0);
    }
  }

  // -------------------------------------------------------------- error codes

  /** Why a value that does not fit is refused. */
  ghost function ScalarRefusal(f: Field, item: Json): Code {
    match f.kind
    case SignedInteger => if item.Number? then OutOfRange else InvalidArgument
    case UnsignedInteger => if item.Number? then OutOfRange else InvalidArgument
    case CharArray => if item.Str? then BufferTooSmall else InvalidArgument
    case _ => InvalidArgument
  }

  ghost function ElementRefusal(g: Graph, f: Field, item: Json, k: nat): Code
    requires Transport.Placeable(g, f, k)
    decreases k, 0
  {
    if f.kind.Struct? then StructRefusal(g, f.nested.value, item, k - 1) else ScalarRefusal(f, item)
  }

  /** The first element that does not fit decides. */
  ghost function ItemsRefusal(g: Graph, f: Field, items: seq<Json>, k: nat, i: nat): Code
    requires Transport.Placeable(g, f, k) && i <= f.elementCount <= |items|
    decreases k, 1, f.elementCount - i
  {
    if i == f.elementCount then Ok
    else if ElementAccepts(g, f, items[i], k) then ItemsRefusal(g, f, items, k, i + 1)
    else ElementRefusal(g, f, items[i], k)
  }

  ghost function ItemRefusal(g: Graph, f: Field, item: Json, k: nat): Code
    requires Transport.Placeable(g, f, k)
    decreases k, 2
  {
    if HasAttribute(f, "meta.format") then if item.Str? then InvalidEncoding else InvalidArgument
    else if f.kind.CharArray? || f.elementCount == 1 then ElementRefusal(g, f, item, k)
    else if !item.Arr? || !LengthAccepts(|item.items|, f.elementCount) || f.elementCount > |item.items| then InvalidArgument
    else ItemsRefusal(g, f, item.items, k, 0)
  }

  /** An absent key is MissingRequired, a present item is refused by itself. */
  ghost function FieldRefusal(g: Graph, f: Field, members: seq<Member>, k: nat): Code
    requires Transport.Placeable(g, f, k) && f.name.Some?
    decreases k, 3
  {
    match Lookup(members, JsonKey(f))
    case None => MissingRequired
    case Some(item) => ItemRefusal(g, f, item, k)
  }

  /** The first offending field decides. */
  ghost function FieldsRefusal(g: Graph, d: Ref, members: seq<Member>, k: nat, i: nat): Code
    requires Closed(g) && d < |g| && ValidWithin(g, d, k) && i <= |Fields(g, d)|
    decreases k, 4, |Fields(g, d)| - i
  {
    if i == |Fields(g, d)| then Ok
    else
      Transport.FieldPlaceable(g, d, k, i);
      if FieldAccepts(g, Fields(g, d)[i], members, k) then FieldsRefusal(g, d, members, k, i + 1)
      else FieldRefusal(g, Fields(g, d)[i], members, k)
  }

  ghost function StructRefusal(g: Graph, d: Ref, json: Json, k: nat): Code
    requires Closed(g) && d < |g| && ValidWithin(g, d, k)
    decreases k, 5
  {
    if json.Obj? then FieldsRefusal(g, d, json.members, k, 0) else InvalidArgument
  }

  lemma {:induction false} ScalarRefused(ops: Floats, f: Field, item: Json, mem: Bytes, at: nat)
    requires ShapeOk(f) && !f.kind.Struct? && at + ElementExtent(f) <= |mem| && !ScalarAccepts(f, item)
    ensures ScalarFromJson(ops, f, item, mem, at).0 == ScalarRefusal(f, item)
  {
    if IsInteger(f.kind) && item.Number? && item.exact.Some? {
      RangesAgree(f.elementSize, item.exact.value);
    }
  }

  lemma {:induction false} ElementRefused(
      ops: Floats, g: Graph, f: Field, item: Json, mem: Bytes, base: nat, k: nat, i: nat)
    requires Ready(g, f, mem, base, k) && i < f.elementCount && Transport.Placeable(g, f, k)
    requires !ElementAccepts(g, f, item, k)
    ensures ElementFromJson(ops, g, f, item, mem, base, k, i).0 == ElementRefusal(g, f, item, k)
    decreases k, 0
  {
    ReadyIsPlaceable(g, f, mem, base, k);
    ElementReady(g, f, mem, base, k, i);
    if f.kind.Struct? {
      StructRefused(ops, g, f.nested.value, item, mem, At(f, base, i), k - 1);
    } else {
      ScalarRefused(ops, f, item, mem, At(f, base, i));
    }
  }

  lemma {:induction false} ItemsRefused(
      ops: Floats, g: Graph, f: Field, items: seq<Json>, mem: Bytes, base: nat, k: nat, i: nat)
    requires Ready(g, f, mem, base, k) && i <= f.elementCount <= |items| && Transport.Placeable(g, f, k)
    requires !ItemsAccept(g, f, items, k, i)
    ensures ItemsFromJson(ops, g, f, items, mem, base, k, i).0 == ItemsRefusal(g, f, items, k, i)
    decreases k, 1, f.elementCount - i
  {
    ElementAccepted(ops, g, f, items[i], mem, base, k, i);
    if ElementAccepts(g, f, items[i], k) {
      ItemsRefused(ops, g, f, items, ElementFromJson(ops, g, f, items[i], mem, base, k, i).1, base, k, i + 1);
    } else {
      ElementRefused(ops, g, f, items[i], mem, base, k, i);
    }
  }

  lemma {:induction false} ItemRefused(
      ops: Floats, g: Graph, f: Field, members: seq<Member>, item: Json, mem: Bytes, base: nat, k: nat)
    requires Ready(g, f, mem, base, k) && !Ignored(f) && Lookup(members, JsonKey(f)) == Some(item)
    requires Transport.Placeable(g, f, k) && !ItemAccepts(g, f, item, k)
    ensures FieldFromJson(ops, g, f, members, mem, base, k).0 == ItemRefusal(g, f, item, k)
    decreases k, 2
  {
    ReadyIsPlaceable(g, f, mem, base, k);
    FormatMeans(f);
    if AsHexText(f) {
      if item.Str? {
        HexAccepted(item.text, f.elementCount);
      }
    } else if AsOneItem(f) {
      ElementRefused(ops, g, f, item, mem, base, k, 0);
    } else if item.Arr? {
      LengthsAgree(item.items, f.elementCount);
      if ArraySize(item.items) == f.elementCount {
        ItemsRefused(ops, g, f, item.items, mem, base, k, 0);
      }
    }
  }

  lemma {:induction false} FieldRefused(
      ops: Floats, g: Graph, f: Field, members: seq<Member>, mem: Bytes, base: nat, k: nat)
    requires Ready(g, f, mem, base, k) && Transport.Placeable(g, f, k) && !FieldAccepts(g, f, members, k)
    ensures f.name.Some? && FieldFromJson(ops, g, f, members, mem, base, k).0 == FieldRefusal(g, f, members, k)
    decreases k, 3
  {
    hide ItemAccepts, FieldAccepts;
    ReadyIsPlaceable(g, f, mem, base, k);
    if Ignored(f) {
      IgnoredAccepts(g, f, members, k);
    } else {
      FieldAcceptsByKey(g, f, members, k);
      if Lookup(members, JsonKey(f)).Some? {
        ItemRefused(ops, g, f, members, Lookup(members, JsonKey(f)).value, mem, base, k);
      }
    }
  }

  lemma {:induction false} FieldsRefused(
      ops: Floats, g: Graph, d: Ref, members: seq<Member>, mem: Bytes, base: nat, k: nat, i: nat)
    requires StructReady(g, d, mem, base, k) && i <= |Fields(g, d)| && !FieldsAccept(g, d, members, k, i)
    ensures FieldsFromJson(ops, g, d, members, mem, base, k, i).0 == FieldsRefusal(g, d, members, k, i)
    decreases k, 4, |Fields(g, d)| - i
  {
    hide FieldAccepts, FieldFromJson, FieldRefusal;
    var f := Fields(g, d)[i];
    FieldsReady(g, d, mem, base, k, i);
    Transport.FieldPlaceable(g, d, k, i);
    FieldAccepted(ops, g, f, members, mem, base, k);
    if FieldAccepts(g, f, members, k) {
      FieldsRefused(ops, g, d, members, FieldFromJson(ops, g, f, members, mem, base, k).1, base, k, i + 1);
    } else {
      FieldRefused(ops, g, f, members, mem, base, k);
    }
  }

  /** A tree that is not accepted is refused with the code of its first offence. */
  lemma {:induction false} StructRefused(ops: Floats, g: Graph, d: Ref, json: Json, mem: Bytes, base: nat, k: nat)
    requires StructReady(g, d, mem, base, k) && !StructAccepts(g, d, json, k)
    ensures StructFromJson(ops, g, d, json, mem, base, k).0 == StructRefusal(g, d, json, k)
    decreases k, 5
  {
    if json.Obj? {
      FieldsRefused(ops, g, d, json.members, mem, base, k, 0);
    }
  }

  /** The field is required, and its key is absent. */
  ghost predicate Misses(f: Field, members: seq<Member>, key: CString) {
    !HasAttribute(f, "json.ignore") && HasAttribute(f, "json.required") && IsKey(f, key) && Lacks(members, key)
  }

  /** The fields before j accept and field j is required and absent: the code is MissingRequired. */
  lemma {:induction false} FirstMissing(
      ops: Floats, g: Graph, d: Ref, members: seq<Member>, mem: Bytes, base: nat, k: nat, i: nat, j: nat, key: CString)
    requires StructReady(g, d, mem, base, k) && i <= j < |Fields(g, d)|
    requires forall m: nat :: i <= m < j ==> AcceptsAt(g, d, members, k, m)
    requires Misses(Fields(g, d)[j], members, key)
    ensures FieldsFromJson(ops, g, d, members, mem, base, k, i).0 == MissingRequired
    decreases j - i
  {
    hide FieldAccepts, FieldFromJson, Misses;
    FieldsReady(g, d, mem, base, k, i);
    Transport.FieldPlaceable(g, d, k, i);
    if i < j {
      assert AcceptsAt(g, d, members, k, i);
      FieldAccepted(ops, g, Fields(g, d)[i], members, mem, base, k);
      var after := FieldFromJson(ops, g, Fields(g, d)[i], members, mem, base, k).1;
      FirstMissing(ops, g, d, members, after, base, k, i + 1, j, key);
    } else {
      MissingHere(ops, g, Fields(g, d)[j], members, mem, base, k, key);
    }
  }

  lemma {:induction false} MissingHere(
      ops: Floats, g: Graph, f: Field, members: seq<Member>, mem: Bytes, base: nat, k: nat, key: CString)
    requires Ready(g, f, mem, base, k)
    requires Misses(f, members, key)
    ensures FieldFromJson(ops, g, f, members, mem, base, k).0 == MissingRequired
  {
    hide HasAttribute, IsKey, Lacks;
    FlagsMean(f);
    KeyIs(f, key);
    LookupIs(members, key, Null);
  }

  ghost predicate AcceptsAt(g: Graph, d: Ref, members: seq<Member>, k: nat, m: nat)
    requires Closed(g) && d < |g| && ValidWithin(g, d, k) && m < |Fields(g, d)|
  {
    Transport.FieldPlaceable(g, d, k, m);
    FieldAccepts(g, Fields(g, d)[m], members, k)
  }
}
