/**
 The bytes of an instance that its fields hold, and the frame of decoding: whatever the
 JSON value, on success and on failure, no other byte changes.
 */
module DecodeFrame {
  import opened Base
  import opened Memory
  import opened Meta
  import opened Json

  // -------------------------------------------------------- positions touched

  /** The bytes of a char array up to and including its first NUL, or all of them. */
  ghost function TextSpan(f: Field, src: Bytes, at: nat): nat
    requires at + f.charBufferSize <= |src|
  {
    match TextAt(src[at..at + f.charBufferSize])
    case Some(text) => |text| + 1
    case None => f.charBufferSize
  }

  /**
   The bytes an element holds: of a char array only the text that src holds there,
   unless the whole buffer is asked for.
   */
  ghost function ElementTouch(g: Graph, f: Field, src: Bytes, whole: bool, base: nat, k: nat, i: nat): set<nat>
    requires Ready(g, f, src, base, k) && i < f.elementCount
    decreases k, 0
  {
    ElementReady(g, f, src, base, k, i);
    if f.kind.Struct? then StructTouch(g, f.nested.value, src, whole, At(f, base, i), k - 1)
    else if f.kind.CharArray? && !whole then Range(At(f, base, i), TextSpan(f, src, At(f, base, i)))
    else Range(At(f, base, i), ElementExtent(f))
  }

  ghost function ItemsTouch(g: Graph, f: Field, src: Bytes, whole: bool, base: nat, k: nat, i: nat): set<nat>
    requires Ready(g, f, src, base, k) && i <= f.elementCount
    decreases k, 1, f.elementCount - i
  {
    if i == f.elementCount then {}
    else ElementTouch(g, f, src, whole, base, k, i) + ItemsTouch(g, f, src, whole, base, k, i + 1)
  }

  ghost function FieldsTouch(g: Graph, d: Ref, src: Bytes, whole: bool, base: nat, k: nat, i: nat): set<nat>
    requires StructReady(g, d, src, base, k) && i <= |Fields(g, d)|
    decreases k, 2, |Fields(g, d)| - i
  {
    if i == |Fields(g, d)| then {}
    else
      var f := Fields(g, d)[i];
      FieldsReady(g, d, src, base, k, i);
      (if Ignored(f) then {} else ItemsTouch(g, f, src, whole, base, k, 0))
      + FieldsTouch(g, d, src, whole, base, k, i + 1)
  }

  /** All bytes of the fields of a structure that are not ignored. */
  ghost function StructTouch(g: Graph, d: Ref, src: Bytes, whole: bool, base: nat, k: nat): set<nat>
    requires StructReady(g, d, src, base, k)
    decreases k, 3
  {
    FieldsTouch(g, d, src, whole, base, k, 0)
  }

  ghost predicate Between(s: set<nat>, from: nat, to: nat) {
    forall p :: p in s ==> from <= p < to
  }

  lemma {:induction false} TextFits(bytes: Bytes)
    ensures TextAt(bytes).Some? ==> |TextAt(bytes).value| < |bytes|
  {
    if bytes != [] {
      TextFits(bytes[1..]);
    }
  }

  lemma {:induction false} ElementTouchInside(g: Graph, f: Field, src: Bytes, whole: bool, base: nat, k: nat, i: nat)
    requires Ready(g, f, src, base, k) && i < f.elementCount
    ensures Between(ElementTouch(g, f, src, whole, base, k, i), base + f.offset, base + f.offset + Extent(f))
    decreases k, 0
  {
    ElementReady(g, f, src, base, k, i);
    ElementFits(f, base, i);
    if f.kind.Struct? {
      StructTouchInside(g, f.nested.value, src, whole, At(f, base, i), k - 1);
    } else if f.kind.CharArray? {
      TextFits(src[At(f, base, i)..At(f, base, i) + f.charBufferSize]);
    }
  }

  lemma {:induction false} ItemsTouchInside(g: Graph, f: Field, src: Bytes, whole: bool, base: nat, k: nat, i: nat)
    requires Ready(g, f, src, base, k) && i <= f.elementCount
    ensures Between(ItemsTouch(g, f, src, whole, base, k, i), base + f.offset, base + f.offset + Extent(f))
    decreases k, 1, f.elementCount - i
  {
    if i < f.elementCount {
      ElementTouchInside(g, f, src, whole, base, k, i);
      ItemsTouchInside(g, f, src, whole, base, k, i + 1);
    }
  }

  lemma {:induction false} FieldsTouchInside(g: Graph, d: Ref, src: Bytes, whole: bool, base: nat, k: nat, i: nat)
    requires StructReady(g, d, src, base, k) && i <= |Fields(g, d)|
    ensures Between(FieldsTouch(g, d, src, whole, base, k, i), base, base + g[d].size)
    decreases k, 2, |Fields(g, d)| - i
  {
    if i < |Fields(g, d)| {
      FieldsReady(g, d, src, base, k, i);
      assert FieldOk(g, Fields(g, d)[i], g[d].size);
      ItemsTouchInside(g, Fields(g, d)[i], src, whole, base, k, 0);
      FieldsTouchInside(g, d, src, whole, base, k, i + 1);
    }
  }

  /** Nothing outside the instance is ever touched. */
  lemma {:induction false} StructTouchInside(g: Graph, d: Ref, src: Bytes, whole: bool, base: nat, k: nat)
    requires StructReady(g, d, src, base, k)
    ensures Between(StructTouch(g, d, src, whole, base, k), base, base + g[d].size)
    decreases k, 3
  {
    FieldsTouchInside(g, d, src, whole, base, k, 0);
  }

  // ------------------------------------------------------------ decode frame

  ghost predicate Unchanged(before: Bytes, after: Bytes, s: set<nat>) {
    |after| == |before| && forall p: nat :: p < |before| && p !in s ==> after[p] == before[p]
  }

  lemma {:induction false} ScalarFrame(ops: Floats, f: Field, item: Json, mem: Bytes, at: nat)
    requires ShapeOk(f) && at + ElementExtent(f) <= |mem|
    ensures var (code, after) := ScalarFromJson(ops, f, item, mem, at);
      Unchanged(mem, after, Range(at, ElementExtent(f))) && (code != Ok ==> after == mem)
  {
  }

  lemma {:induction false} ElementFrame(
      ops: Floats, g: Graph, f: Field, item: Json, room: Bytes, mem: Bytes, base: nat, k: nat, i: nat)
    requires Ready(g, f, room, base, k) && |mem| == |room| && i < f.elementCount
    ensures Unchanged(mem, ElementFromJson(ops, g, f, item, mem, base, k, i).1, ElementTouch(g, f, room, true, base, k, i))
    decreases k, 0
  {
    ElementReady(g, f, room, base, k, i);
    if f.kind.Struct? {
      StructFrame(ops, g, f.nested.value, item, room, mem, At(f, base, i), k - 1);
    } else {
      ScalarFrame(ops, f, item, mem, At(f, base, i));
    }
  }

  lemma {:induction false} ItemsFrame(
      ops: Floats, g: Graph, f: Field, items: seq<Json>, room: Bytes, mem: Bytes, base: nat, k: nat, i: nat)
    requires Ready(g, f, room, base, k) && |mem| == |room| && i <= f.elementCount <= |items|
    ensures Unchanged(mem, ItemsFromJson(ops, g, f, items, mem, base, k, i).1, ItemsTouch(g, f, room, true, base, k, i))
    decreases k, 1, f.elementCount - i
  {
    if i < f.elementCount {
      ElementFrame(ops, g, f, items[i], room, mem, base, k, i);
      var (code, after) := ElementFromJson(ops, g, f, items[i], mem, base, k, i);
      if code == Ok {
        ItemsFrame(ops, g, f, items, room, after, base, k, i + 1);
      }
    }
  }

  lemma {:induction false} ByteArrayTouch(g: Graph, f: Field, src: Bytes, whole: bool, base: nat, k: nat, i: nat)
    requires Ready(g, f, src, base, k) && IsByteArray(f) && i <= f.elementCount
    ensures ItemsTouch(g, f, src, whole, base, k, i) == Range(At(f, base, i), f.elementCount - i)
    decreases f.elementCount - i
  {
    if i < f.elementCount {
      ByteArrayTouch(g, f, src, whole, base, k, i + 1);
    }
  }

  lemma {:induction false} FieldFrame(
      ops: Floats, g: Graph, f: Field, members: seq<Member>, room: Bytes, mem: Bytes, base: nat, k: nat)
    requires Ready(g, f, room, base, k) && |mem| == |room| && !Ignored(f)
    ensures Unchanged(mem, FieldFromJson(ops, g, f, members, mem, base, k).1, ItemsTouch(g, f, room, true, base, k, 0))
    ensures AsHexText(f) && FieldFromJson(ops, g, f, members, mem, base, k).0 != Ok ==>
      FieldFromJson(ops, g, f, members, mem, base, k).1 == mem
    decreases k, 2
  {
    var found := Lookup(members, JsonKey(f));
    if found.Some? {
      if AsHexText(f) {
        ByteArrayTouch(g, f, room, true, base, k, 0);
      } else if AsOneItem(f) {
        ElementFrame(ops, g, f, found.value, room, mem, base, k, 0);
      } else if found.value.Arr? && ArraySize(found.value.items) == f.elementCount {
        ItemsFrame(ops, g, f, found.value.items, room, mem, base, k, 0);
      }
    }
  }

  lemma {:induction false} FieldsFrame(
      ops: Floats, g: Graph, d: Ref, members: seq<Member>, room: Bytes, mem: Bytes, base: nat, k: nat, i: nat)
    requires StructReady(g, d, room, base, k) && |mem| == |room| && i <= |Fields(g, d)|
    ensures Unchanged(mem, FieldsFromJson(ops, g, d, members, mem, base, k, i).1, FieldsTouch(g, d, room, true, base, k, i))
    decreases k, 3, |Fields(g, d)| - i
  {
    if i < |Fields(g, d)| {
      var f := Fields(g, d)[i];
      FieldsReady(g, d, room, base, k, i);
      if !Ignored(f) {
        FieldFrame(ops, g, f, members, room, mem, base, k);
      }
      var (code, after) := FieldFromJson(ops, g, f, members, mem, base, k);
      if code == Ok {
        FieldsFrame(ops, g, d, members, room, after, base, k, i + 1);
      }
    }
  }

  /**
   Whatever JSON value is decoded, and whether or not it succeeds, only bytes of fields
   that are not ignored can change. `room` is any memory of the same length.
   */
  lemma {:induction false} StructFrame(
      ops: Floats, g: Graph, d: Ref, json: Json, room: Bytes, mem: Bytes, base: nat, k: nat)
    requires StructReady(g, d, room, base, k) && |mem| == |room|
    ensures Unchanged(mem, StructFromJson(ops, g, d, json, mem, base, k).1, StructTouch(g, d, room, true, base, k))
    decreases k, 4
  {
    if json.Obj? {
      FieldsFrame(ops, g, d, json.members, room, mem, base, k, 0);
    }
  }
}
