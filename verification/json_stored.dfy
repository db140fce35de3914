/**
 What decoding leaves in memory: every field holds what its item says, and a field whose
 key is absent holds what it held before.
 */
module JsonStored {
  import opened Base
  import opened Memory
  import opened Meta
  import opened Integers
  import opened Json
  import opened DecodeFrame
  import opened JsonMeaning
  import opened SharedKeys
  import Built
  import Hex
  import RoundTrip

  /** The bytes are the same inside the stretch. */
  ghost predicate SameInside(a: Bytes, b: Bytes, from: nat, to: nat) {
    |a| == |b| && forall p: nat :: p < |a| && from <= p < to ==> a[p] == b[p]
  }

  /** The value of the item in the field's bytes; a text is followed by a NUL and the old bytes. */
  ghost predicate ScalarStored(ops: Floats, f: Field, item: Json, before: Bytes, after: Bytes, at: nat)
    requires at + ElementExtent(f) <= |before| == |after|
  {
    match f.kind
    case SignedInteger =>
      && f.elementSize > 0 && item.Number?
      && item.exact == Some(TwosComplement(after[at..at + f.elementSize]))
    case UnsignedInteger =>
      item.Number? && item.exact == Some(Weighted(after[at..at + f.elementSize], f.elementSize))
    case Float => f.elementSize == 4 && item.Number? && after[at..at + 4] == ops.narrow(item.double)
    case Double => f.elementSize == 8 && item.Number? && after[at..at + 8] == item.double
    case CharArray =>
      && item.Str? && IsTextAt(item.text, after, at, f.charBufferSize)
      && SameInside(before, after, at + |item.text| + 1, at + f.charBufferSize)
    case _ => false
  }

  ghost predicate ElementStored(
      ops: Floats, g: Graph, f: Field, item: Json, before: Bytes, after: Bytes, base: nat, k: nat, i: nat)
    requires Ready(g, f, before, base, k) && |after| == |before| && i < f.elementCount
    decreases k, 0
  {
    ElementReady(g, f, before, base, k, i);
    var at := base + f.offset + i * f.elementSize;
    if f.kind.Struct? then StructStored(ops, g, f.nested.value, item, before, after, at, k - 1)
    else ScalarStored(ops, f, item, before, after, at)
  }

  ghost predicate ItemsStored(
      ops: Floats, g: Graph, f: Field, items: seq<Json>, before: Bytes, after: Bytes, base: nat, k: nat, i: nat)
    requires Ready(g, f, before, base, k) && |after| == |before| && i <= f.elementCount <= |items|
    decreases k, 1, f.elementCount - i
  {
    i == f.elementCount || (
      && ElementStored(ops, g, f, items[i], before, after, base, k, i)
      && ItemsStored(ops, g, f, items, before, after, base, k, i + 1))
  }

  ghost predicate ItemStored(
      ops: Floats, g: Graph, f: Field, item: Json, before: Bytes, after: Bytes, base: nat, k: nat)
    requires Ready(g, f, before, base, k) && |after| == |before|
    decreases k, 2
  {
    if HasAttribute(f, "meta.format") then
      && item.Str? && base + f.offset + f.elementCount <= |after|
      && Hex.Spells(item.text, after[base + f.offset..base + f.offset + f.elementCount])
    else if f.kind.CharArray? || f.elementCount == 1 then ElementStored(ops, g, f, item, before, after, base, k, 0)
    else item.Arr? && f.elementCount <= |item.items| && ItemsStored(ops, g, f, item.items, before, after, base, k, 0)
  }

  /** Ignored or absent fields keep their bytes. */
  ghost predicate FieldStored(
      ops: Floats, g: Graph, f: Field, members: seq<Member>, before: Bytes, after: Bytes, base: nat, k: nat)
    requires Ready(g, f, before, base, k) && |after| == |before|
    decreases k, 3
  {
    if Ignored(f) || Lookup(members, JsonKey(f)).None? then
      SameInside(before, after, base + f.offset, base + f.offset + Extent(f))
    else ItemStored(ops, g, f, Lookup(members, JsonKey(f)).value, before, after, base, k)
  }

  ghost predicate FieldsStored(
      ops: Floats, g: Graph, d: Ref, members: seq<Member>, before: Bytes, after: Bytes, base: nat, k: nat, i: nat)
    requires StructReady(g, d, before, base, k) && |after| == |before| && i <= |Fields(g, d)|
    decreases k, 4, |Fields(g, d)| - i
  {
    i == |Fields(g, d)| || (
      FieldsReady(g, d, before, base, k, i);
      && FieldStored(ops, g, Fields(g, d)[i], members, before, after, base, k)
      && FieldsStored(ops, g, d, members, before, after, base, k, i + 1))
  }

  ghost predicate StructStored(
      ops: Floats, g: Graph, d: Ref, json: Json, before: Bytes, after: Bytes, base: nat, k: nat)
    requires StructReady(g, d, before, base, k) && |after| == |before|
    decreases k, 5
  {
    json.Obj? && FieldsStored(ops, g, d, json.members, before, after, base, k, 0)
  }

  // ----------------------------------------------- only the own bytes matter

  /** Two pairs of memories that agree on a stretch. */
  ghost predicate SamePair(b: Bytes, a: Bytes, c: Bytes, e: Bytes, from: nat, to: nat) {
    |a| == |b| && SameInside(b, c, from, to) && SameInside(a, e, from, to)
  }

  lemma {:induction false} ScalarSeesOwn(
      ops: Floats, f: Field, item: Json, b: Bytes, a: Bytes, c: Bytes, e: Bytes, at: nat)
    requires at + ElementExtent(f) <= |b| && SamePair(b, a, c, e, at, at + ElementExtent(f))
    requires ScalarStored(ops, f, item, b, a, at)
    ensures ScalarStored(ops, f, item, c, e, at)
  {
    if !f.kind.CharArray? {
      assert a[at..at + f.elementSize] == e[at..at + f.elementSize];
    }
  }

  lemma {:induction false} ElementSeesOwn(
      ops: Floats, g: Graph, f: Field, item: Json, b: Bytes, a: Bytes, c: Bytes, e: Bytes, base: nat, k: nat, i: nat)
    requires Ready(g, f, b, base, k) && Ready(g, f, c, base, k) && i < f.elementCount
    requires SamePair(b, a, c, e, At(f, base, i), At(f, base, i) + ElementExtent(f))
    requires ElementStored(ops, g, f, item, b, a, base, k, i)
    ensures ElementStored(ops, g, f, item, c, e, base, k, i)
    decreases k, 0
  {
    ElementReady(g, f, b, base, k, i);
    ElementReady(g, f, c, base, k, i);
    if f.kind.Struct? {
      StructSeesOwn(ops, g, f.nested.value, item, b, a, c, e, At(f, base, i), k - 1);
    } else {
      ScalarSeesOwn(ops, f, item, b, a, c, e, At(f, base, i));
    }
  }

  lemma {:induction false} ItemsSeeOwn(
      ops: Floats, g: Graph, f: Field, items: seq<Json>, b: Bytes, a: Bytes, c: Bytes, e: Bytes,
      base: nat, k: nat, i: nat)
    requires Ready(g, f, b, base, k) && Ready(g, f, c, base, k) && i <= f.elementCount <= |items|
    requires SamePair(b, a, c, e, At(f, base, i), base + f.offset + Extent(f))
    requires ItemsStored(ops, g, f, items, b, a, base, k, i)
    ensures ItemsStored(ops, g, f, items, c, e, base, k, i)
    decreases k, 1, f.elementCount - i
  {
    hide ElementStored;
    if i < f.elementCount {
      ElementFits(f, base, i);
      assert At(f, base, i + 1) == At(f, base, i) + f.elementSize;
      hide At;
      ElementSeesOwn(ops, g, f, items[i], b, a, c, e, base, k, i);
      ItemsSeeOwn(ops, g, f, items, b, a, c, e, base, k, i + 1);
    }
  }

  lemma {:induction false} ItemSeesOwn(
      ops: Floats, g: Graph, f: Field, item: Json, b: Bytes, a: Bytes, c: Bytes, e: Bytes, base: nat, k: nat)
    requires Ready(g, f, b, base, k) && Ready(g, f, c, base, k)
    requires SamePair(b, a, c, e, base + f.offset, base + f.offset + Extent(f))
    requires ItemStored(ops, g, f, item, b, a, base, k)
    ensures ItemStored(ops, g, f, item, c, e, base, k)
    decreases k, 2
  {
    FormatMeans(f);
    if HasAttribute(f, "meta.format") {
      assert a[base + f.offset..base + f.offset + f.elementCount] == e[base + f.offset..base + f.offset + f.elementCount];
    } else if f.kind.CharArray? || f.elementCount == 1 {
      ElementFits(f, base, 0);
      ElementSeesOwn(ops, g, f, item, b, a, c, e, base, k, 0);
    } else {
      ItemsSeeOwn(ops, g, f, item.items, b, a, c, e, base, k, 0);
    }
  }

  lemma {:induction false} FieldSeesOwn(
      ops: Floats, g: Graph, f: Field, members: seq<Member>, b: Bytes, a: Bytes, c: Bytes, e: Bytes, base: nat, k: nat)
    requires Ready(g, f, b, base, k) && Ready(g, f, c, base, k)
    requires SamePair(b, a, c, e, base + f.offset, base + f.offset + Extent(f))
    requires FieldStored(ops, g, f, members, b, a, base, k)
    ensures FieldStored(ops, g, f, members, c, e, base, k)
    decreases k, 3
  {
    if !Ignored(f) && Lookup(members, JsonKey(f)).Some? {
      ItemSeesOwn(ops, g, f, Lookup(members, JsonKey(f)).value, b, a, c, e, base, k);
    }
  }

  lemma {:induction false} FieldsSeeOwn(
      ops: Floats, g: Graph, d: Ref, members: seq<Member>, b: Bytes, a: Bytes, c: Bytes, e: Bytes,
      base: nat, k: nat, i: nat)
    requires StructReady(g, d, b, base, k) && StructReady(g, d, c, base, k) && i <= |Fields(g, d)|
    requires SamePair(b, a, c, e, base, base + g[d].size)
    requires FieldsStored(ops, g, d, members, b, a, base, k, i)
    ensures FieldsStored(ops, g, d, members, c, e, base, k, i)
    decreases k, 4, |Fields(g, d)| - i
  {
    if i < |Fields(g, d)| {
      FieldsReady(g, d, b, base, k, i);
      FieldsReady(g, d, c, base, k, i);
      assert FieldOk(g, Fields(g, d)[i], g[d].size);
      FieldSeesOwn(ops, g, Fields(g, d)[i], members, b, a, c, e, base, k);
      FieldsSeeOwn(ops, g, d, members, b, a, c, e, base, k, i + 1);
    }
  }

  lemma {:induction false} StructSeesOwn(
      ops: Floats, g: Graph, d: Ref, json: Json, b: Bytes, a: Bytes, c: Bytes, e: Bytes, base: nat, k: nat)
    requires StructReady(g, d, b, base, k) && StructReady(g, d, c, base, k)
    requires SamePair(b, a, c, e, base, base + g[d].size)
    requires StructStored(ops, g, d, json, b, a, base, k)
    ensures StructStored(ops, g, d, json, c, e, base, k)
    decreases k, 5
  {
    FieldsSeeOwn(ops, g, d, json.members, b, a, c, e, base, k, 0);
  }

  // --------------------------------------------------------------- what is stored

  lemma {:induction false} TextBytesAre(text: CString)
    ensures TextBytes(text)[|text|] == 0
    ensures forall c :: 0 <= c < |text| ==> TextBytes(text)[c] == text[c] as int
  {
    if text != [] {
      TextBytesAre(text[1..]);
      assert forall c :: 0 < c < |text| ==> text[c] == text[1..][c - 1];
    }
  }

  lemma {:induction false} IntegerStored(ops: Floats, f: Field, item: Json, mem: Bytes, at: nat)
    requires ShapeOk(f) && IsInteger(f.kind) && at + f.elementSize <= |mem|
    requires ScalarFromJson(ops, f, item, mem, at).0 == Ok
    ensures ScalarStored(ops, f, item, mem, ScalarFromJson(ops, f, item, mem, at).1, at)
  {
    var after := ScalarFromJson(ops, f, item, mem, at).1;
    var v := item.exact.value;
    var bytes := if f.kind.SignedInteger? then SignedBytes(f.elementSize, v) else UnsignedBytes(f.elementSize, v);
    assert after == Overwrite(mem, at, bytes);
    assert after[at..at + f.elementSize] == bytes;
    SignedIsTwosComplement(bytes);
    if f.kind.SignedInteger? {
      SignedReadsBack(f.elementSize, v);
    } else {
      UnsignedReadsBack(f.elementSize, v);
    }
  }

  lemma {:induction false} ValueStored(ops: Floats, f: Field, item: Json, mem: Bytes, at: nat)
    requires ShapeOk(f) && !f.kind.Struct? && at + ElementExtent(f) <= |mem|
    requires ScalarFromJson(ops, f, item, mem, at).0 == Ok
    ensures ScalarStored(ops, f, item, mem, ScalarFromJson(ops, f, item, mem, at).1, at)
  {
    var after := ScalarFromJson(ops, f, item, mem, at).1;
    if IsInteger(f.kind) {
      IntegerStored(ops, f, item, mem, at);
    } else if f.kind.CharArray? {
      TextBytesAre(item.text);
    } else if f.kind.Float? {
      assert after[at..at + 4] == ops.narrow(item.double);
    } else {
      assert after[at..at + 8] == item.double;
    }
  }

  lemma {:induction false} ElementIsStored(
      ops: Floats, g: Graph, f: Field, item: Json, mem: Bytes, base: nat, k: nat, i: nat)
    requires Built.Ordered(g) && Ready(g, f, mem, base, k) && i < f.elementCount
    requires ElementFromJson(ops, g, f, item, mem, base, k, i).0 == Ok
    ensures ElementStored(ops, g, f, item, mem, ElementFromJson(ops, g, f, item, mem, base, k, i).1, base, k, i)
    decreases k, 0
  {
    ElementReady(g, f, mem, base, k, i);
    if f.kind.Struct? {
      StructIsStored(ops, g, f.nested.value, item, mem, At(f, base, i), k - 1);
    } else {
      ValueStored(ops, f, item, mem, At(f, base, i));
    }
  }

  lemma {:induction false} ItemsAreStored(
      ops: Floats, g: Graph, f: Field, items: seq<Json>, mem: Bytes, base: nat, k: nat, i: nat)
    requires Built.Ordered(g) && Ready(g, f, mem, base, k) && i <= f.elementCount <= |items| && !f.kind.CharArray?
    requires ItemsFromJson(ops, g, f, items, mem, base, k, i).0 == Ok
    ensures ItemsStored(ops, g, f, items, mem, ItemsFromJson(ops, g, f, items, mem, base, k, i).1, base, k, i)
    decreases k, 1, f.elementCount - i
  {
    if i < f.elementCount {
      var mid := ElementFromJson(ops, g, f, items[i], mem, base, k, i).1;
      var out := ItemsFromJson(ops, g, f, items, mid, base, k, i + 1).1;
      ElementIsStored(ops, g, f, items[i], mem, base, k, i);
      ItemsAreStored(ops, g, f, items, mid, base, k, i + 1);
      ElementFrame(ops, g, f, items[i], mem, mem, base, k, i);
      ElementTouchAt(g, f, mem, true, base, k, i);
      ItemsFrame(ops, g, f, items, mem, mid, base, k, i + 1);
      ItemsTouchFrom(g, f, mem, true, base, k, i + 1);
      assert At(f, base, i + 1) == At(f, base, i) + f.elementSize;
      ElementSeesOwn(ops, g, f, items[i], mem, mid, mem, out, base, k, i);
      ItemsSeeOwn(ops, g, f, items, mid, out, mem, out, base, k, i + 1);
    }
  }

  lemma {:induction false} FieldIsStored(
      ops: Floats, g: Graph, f: Field, members: seq<Member>, mem: Bytes, base: nat, k: nat)
    requires Built.Ordered(g) && Ready(g, f, mem, base, k)
    requires FieldFromJson(ops, g, f, members, mem, base, k).0 == Ok
    ensures FieldStored(ops, g, f, members, mem, FieldFromJson(ops, g, f, members, mem, base, k).1, base, k)
    decreases k, 3
  {
    if !Ignored(f) && Lookup(members, JsonKey(f)).Some? {
      var item := Lookup(members, JsonKey(f)).value;
      FormatMeans(f);
      if AsHexText(f) {
        HexIsStored(ops, g, f, members, item, mem, base, k);
      } else if AsOneItem(f) {
        ElementIsStored(ops, g, f, item, mem, base, k, 0);
      } else {
        ItemsAreStored(ops, g, f, item.items, mem, base, k, 0);
      }
    }
  }

  lemma {:induction false} HexIsStored(
      ops: Floats, g: Graph, f: Field, members: seq<Member>, item: Json, mem: Bytes, base: nat, k: nat)
    requires Ready(g, f, mem, base, k) && AsHexText(f) && !Ignored(f) && Lookup(members, JsonKey(f)) == Some(item)
    requires FieldFromJson(ops, g, f, members, mem, base, k).0 == Ok
    ensures ItemStored(ops, g, f, item, mem, FieldFromJson(ops, g, f, members, mem, base, k).1, base, k)
  {
    FormatMeans(f);
    RoundTrip.HexIsByteArray(f, base);
    var bytes := Hex.DecodeHex(item.text, f.elementCount).value;
    Hex.DecodesIffSpells(item.text, f.elementCount, bytes);
    var after := FieldFromJson(ops, g, f, members, mem, base, k).1;
    assert after[base + f.offset..base + f.offset + f.elementCount] == bytes;
  }

  lemma {:induction false} FieldsAreStored(
      ops: Floats, g: Graph, d: Ref, members: seq<Member>, mem: Bytes, base: nat, k: nat, i: nat)
    requires Built.Ordered(g) && StructReady(g, d, mem, base, k) && i <= |Fields(g, d)|
    requires FieldsFromJson(ops, g, d, members, mem, base, k, i).0 == Ok
    ensures FieldsStored(ops, g, d, members, mem, FieldsFromJson(ops, g, d, members, mem, base, k, i).1, base, k, i)
    decreases k, 4, |Fields(g, d)| - i
  {
    if i < |Fields(g, d)| {
      var f := Fields(g, d)[i];
      FieldsReady(g, d, mem, base, k, i);
      var mid := FieldFromJson(ops, g, f, members, mem, base, k).1;
      var out := FieldsFromJson(ops, g, d, members, mid, base, k, i + 1).1;
      FieldIsStored(ops, g, f, members, mem, base, k);
      FieldsAreStored(ops, g, d, members, mid, base, k, i + 1);
      FieldsFrame(ops, g, d, members, mem, mid, base, k, i + 1);
      FieldsTouchFrom(g, d, mem, true, base, k, i + 1, base + f.offset + Extent(f));
      FieldSeesOwn(ops, g, f, members, mem, mid, mem, out, base, k);
      OnlyThisField(ops, g, f, members, mem, base, k);
      LaterFieldsSame(ops, g, d, members, mem, mid, out, base, k, i, i + 1);
    }
  }

  /** Decoding one field changes nothing outside its storage. */
  lemma {:induction false} OnlyThisField(
      ops: Floats, g: Graph, f: Field, members: seq<Member>, mem: Bytes, base: nat, k: nat)
    requires Ready(g, f, mem, base, k)
    ensures SameBeside(mem, FieldFromJson(ops, g, f, members, mem, base, k).1, f, base)
  {
    if !Ignored(f) {
      FieldFrame(ops, g, f, members, mem, mem, base, k);
      ItemsTouchInside(g, f, mem, true, base, k, 0);
    }
  }

  /** Later fields lie elsewhere, so what they hold is the same against the older memory. */
  lemma {:induction false} LaterFieldsSame(
      ops: Floats, g: Graph, d: Ref, members: seq<Member>, mem: Bytes, mid: Bytes, out: Bytes,
      base: nat, k: nat, i: nat, m: nat)
    requires Built.Ordered(g) && StructReady(g, d, mem, base, k) && StructReady(g, d, mid, base, k)
    requires i < m <= |Fields(g, d)| && |out| == |mid| && SameBeside(mem, mid, Fields(g, d)[i], base)
    requires FieldsStored(ops, g, d, members, mid, out, base, k, m)
    ensures FieldsStored(ops, g, d, members, mem, out, base, k, m)
    decreases |Fields(g, d)| - m
  {
    hide FieldStored;
    if m < |Fields(g, d)| {
      FieldsReady(g, d, mem, base, k, m);
      FieldsReady(g, d, mid, base, k, m);
      assert Fields(g, d)[i].offset + Extent(Fields(g, d)[i]) <= Fields(g, d)[m].offset;
      FieldSeesOwn(ops, g, Fields(g, d)[m], members, mid, out, mem, out, base, k);
      LaterFieldsSame(ops, g, d, members, mem, mid, out, base, k, i, m + 1);
    }
  }

  /** After a successful decoding memory holds exactly what the tree says. */
  lemma {:induction false} StructIsStored(ops: Floats, g: Graph, d: Ref, json: Json, mem: Bytes, base: nat, k: nat)
    requires Built.Ordered(g) && StructReady(g, d, mem, base, k)
    requires StructFromJson(ops, g, d, json, mem, base, k).0 == Ok
    ensures StructStored(ops, g, d, json, mem, StructFromJson(ops, g, d, json, mem, base, k).1, base, k)
    decreases k, 5
  {
    FieldsAreStored(ops, g, d, json.members, mem, base, k, 0);
  }
}
