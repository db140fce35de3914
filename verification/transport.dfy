/**
 Which descriptors carry every instance through JSON and back: the instances that differ
 in one field, and the exact condition for all of them to be restored.
 */
module Transport {
  import opened Base
  import opened Memory
  import opened Meta
  import opened Json
  import opened DecodeFrame
  import opened RoundTrip
  import opened SharedKeys
  import Built

  // ------------------------------------------------- fields with two values

  ghost predicate Placeable(g: Graph, f: Field, k: nat) {
    && Closed(g) && (f.nested.Some? ==> f.nested.value < |g|)
    && (f.kind.Struct? ==> f.nested.Some? && k > 0 && ValidWithin(g, f.nested.value, k - 1))
  }

  lemma {:induction false} FieldPlaceable(g: Graph, d: Ref, k: nat, i: nat)
    requires Closed(g) && d < |g| && ValidWithin(g, d, k) && i < |Fields(g, d)|
    ensures Placeable(g, Fields(g, d)[i], k) && Fields(g, d)[i].name.Some?
  {
    assert FieldOk(g, Fields(g, d)[i], g[d].size);
  }

  /** The field can hold two values that JSON tells apart; a char buffer of one byte holds only "". */
  ghost predicate FieldVaries(g: Graph, f: Field, k: nat)
    requires Placeable(g, f, k)
    decreases k, 0
  {
    match f.kind
    case CharArray => f.charBufferSize >= 2
    case Struct => StructVaries(g, f.nested.value, k - 1)
    case _ => true
  }

  ghost predicate StructVaries(g: Graph, d: Ref, k: nat)
    requires Closed(g) && d < |g| && ValidWithin(g, d, k)
    decreases k, 2
  {
    exists i: nat :: i < |Fields(g, d)| && VariesAt(g, d, k, i)
  }

  ghost predicate VariesAt(g: Graph, d: Ref, k: nat, i: nat)
    requires Closed(g) && d < |g| && ValidWithin(g, d, k) && i < |Fields(g, d)|
    decreases k, 1
  {
    FieldPlaceable(g, d, k, i);
    !Ignored(Fields(g, d)[i]) && FieldVaries(g, Fields(g, d)[i], k)
  }

  /** Every field that is not ignored can hold two values, in nested structures too. */
  ghost predicate AllVary(g: Graph, d: Ref, k: nat)
    requires Closed(g) && d < |g| && ValidWithin(g, d, k)
    decreases k
  {
    forall i: nat :: i < |Fields(g, d)| && !Ignored(Fields(g, d)[i]) ==>
      && VariesAt(g, d, k, i)
      && (Fields(g, d)[i].kind.Struct? ==>
          (FieldPlaceable(g, d, k, i); AllVary(g, Fields(g, d)[i].nested.value, k - 1)))
  }

  // --------------------------------------------------------------- variants

  /** Changing element 0 only, and keeping it encodable, keeps the field encodable. */
  lemma {:induction false} FieldSpliced(ops: Floats, g: Graph, f: Field, a: Bytes, b: Bytes, base: nat, k: nat)
    requires Ready(g, f, a, base, k) && Ready(g, f, b, base, k) && FieldEncodable(g, f, a, base, k)
    requires SameOutside(a, b, At(f, base, 0), At(f, base, 0) + ElementExtent(f))
    requires AsHexText(f) || ElementEncodable(g, f, b, base, k, 0)
    ensures FieldEncodable(g, f, b, base, k)
  {
    if !AsHexText(f) {
      assert ItemsEncodable(g, f, a, base, k, 1);
      ItemsTouchFrom(g, f, a, false, base, k, 1);
      ItemsEncode(ops, g, f, a, base, k, 1);
      ItemsEncode(ops, g, f, b, base, k, 1);
      if !f.kind.CharArray? {
        assert At(f, base, 1) == At(f, base, 0) + f.elementSize;
        ItemsSeeTouch(ops, g, f, a, b, base, k, 1);
      }
    }
  }

  /** What a variant of a field is: other bytes in its storage, one of them held before and after. */
  ghost predicate FieldVariant(g: Graph, f: Field, a: Bytes, b: Bytes, base: nat, k: nat, p: nat)
    requires Ready(g, f, a, base, k)
  {
    && SameBeside(a, b, f, base) && Ready(g, f, b, base, k) && FieldEncodable(g, f, b, base, k)
    && p < |a| && a[p] != b[p]
    && p in ItemsTouch(g, f, a, false, base, k, 0) && p in ItemsTouch(g, f, b, false, base, k, 0)
  }

  ghost predicate StructVariant(g: Graph, d: Ref, a: Bytes, b: Bytes, base: nat, k: nat, p: nat)
    requires StructReady(g, d, a, base, k)
  {
    && SameOutside(a, b, base, base + g[d].size) && StructEncodable(g, d, b, base, k)
    && p < |a| && a[p] != b[p]
    && p in StructTouch(g, d, a, false, base, k) && p in StructTouch(g, d, b, false, base, k)
  }

  /** Another value for element 0. */
  lemma {:induction false} ElementVariant(ops: Floats, g: Graph, f: Field, a: Bytes, base: nat, k: nat)
    returns (b: Bytes, p: nat)
    requires Built.Ordered(g) && Ready(g, f, a, base, k) && FieldVaries(g, f, k)
    requires ElementEncodable(g, f, a, base, k, 0)
    ensures SameOutside(a, b, At(f, base, 0), At(f, base, 0) + ElementExtent(f))
    ensures Ready(g, f, b, base, k) && ElementEncodable(g, f, b, base, k, 0)
    ensures p < |a| && a[p] != b[p]
    ensures p in ElementTouch(g, f, a, false, base, k, 0) && p in ElementTouch(g, f, b, false, base, k, 0)
    decreases k, 0
  {
    ElementReady(g, f, a, base, k, 0);
    var at := At(f, base, 0);
    if f.kind.Struct? {
      b, p := NestedVariant(ops, g, f.nested.value, a, at, k - 1);
    } else if f.kind.CharArray? {
      b, p := TextVariant(a, at, f.charBufferSize), at;
      assert b[at..at + f.charBufferSize][1] == 0 || b[at..at + f.charBufferSize][0] == 0;
      TextHoldsFirst(f, a, at);
      TextHoldsFirst(f, b, at);
    } else {
      b, p := a[at := OtherByte(a[at])], at;
    }
  }

  function OtherByte(b: Byte): (r: Byte)
    ensures r != b
  {
    if b == 0 then 1 else 0
  }

  /** A one-character text in place of the empty one, the empty one in place of any other. */
  function TextVariant(a: Bytes, at: nat, size: nat): (b: Bytes)
    requires size >= 2 && at + size <= |a|
    ensures SameOutside(a, b, at, at + size) && a[at] != b[at]
    ensures b[at] == 0 || b[at + 1] == 0
  {
    if a[at] == 0 then a[at := 1][at + 1 := 0] else a[at := 0]
  }

  lemma {:induction false} TextHoldsFirst(f: Field, src: Bytes, at: nat)
    requires f.charBufferSize > 0 && at + f.charBufferSize <= |src|
    ensures at in Range(at, TextSpan(f, src, at))
  {
  }

  lemma {:induction false} ValueVariant(ops: Floats, g: Graph, f: Field, a: Bytes, base: nat, k: nat)
    returns (b: Bytes, p: nat)
    requires Built.Ordered(g) && Ready(g, f, a, base, k) && FieldVaries(g, f, k) && FieldEncodable(g, f, a, base, k)
    ensures FieldVariant(g, f, a, b, base, k, p)
    decreases k, 1
  {
    ElementReady(g, f, a, base, k, 0);
    ElementFits(f, base, 0);
    if AsHexText(f) {
      HexIsByteArray(f, base);
      b, p := a[At(f, base, 0) := OtherByte(a[At(f, base, 0)])], At(f, base, 0);
      ByteArrayTouch(g, f, a, false, base, k, 0);
      ByteArrayTouch(g, f, b, false, base, k, 0);
    } else {
      b, p := ElementVariant(ops, g, f, a, base, k);
    }
    FieldSpliced(ops, g, f, a, b, base, k);
  }

  lemma {:induction false} NestedVariant(ops: Floats, g: Graph, d: Ref, a: Bytes, base: nat, k: nat)
    returns (b: Bytes, p: nat)
    requires Built.Ordered(g) && StructReady(g, d, a, base, k) && StructEncodable(g, d, a, base, k)
    requires StructVaries(g, d, k)
    ensures StructVariant(g, d, a, b, base, k, p)
    decreases k, 2
  {
    var i: nat :| i < |Fields(g, d)| && VariesAt(g, d, k, i);
    var f := Fields(g, d)[i];
    FieldsReady(g, d, a, base, k, i);
    EncodableField(g, d, a, base, k, 0, i);
    b, p := ValueVariant(ops, g, f, a, base, k);
    assert FieldOk(g, f, g[d].size);
    MembersSpliced(ops, g, d, a, b, base, k, i, 0);
    FieldTouchIncluded(g, d, a, false, base, k, 0, i);
    FieldTouchIncluded(g, d, b, false, base, k, 0, i);
  }

  lemma {:induction false} EncodableField(g: Graph, d: Ref, src: Bytes, base: nat, k: nat, i: nat, j: nat)
    requires StructReady(g, d, src, base, k) && i <= j < |Fields(g, d)| && !Ignored(Fields(g, d)[j])
    requires MembersEncodable(g, d, src, base, k, i)
    ensures Ready(g, Fields(g, d)[j], src, base, k) && FieldEncodable(g, Fields(g, d)[j], src, base, k)
    decreases j - i
  {
    hide FieldEncodable, FieldOk;
    FieldsReady(g, d, src, base, k, j);
    if i < j {
      FieldsReady(g, d, src, base, k, i);
      EncodableField(g, d, src, base, k, i + 1, j);
    }
  }

  // ----------------------------------------------------------- the condition

  /** Converting the float to double and back restores it. */
  ghost predicate FloatsFaithful(ops: Floats) {
    forall b: Float4 :: ops.narrow(ops.widen(b)) == b
  }

  ghost predicate FieldTransports(ops: Floats, g: Graph, f: Field, k: nat)
    requires Placeable(g, f, k)
    decreases k, 0
  {
    && (AsHexText(f) || AsOneItem(f) || f.elementCount <= INT_MAX)
    && (f.kind.Struct? ==> StructTransports(ops, g, f.nested.value, k - 1))
    && (f.kind.Float? ==> FloatsFaithful(ops))
  }

  ghost predicate TransportsAt(ops: Floats, g: Graph, d: Ref, k: nat, i: nat)
    requires Closed(g) && d < |g| && ValidWithin(g, d, k) && i < |Fields(g, d)|
    decreases k, 1
  {
    FieldPlaceable(g, d, k, i);
    !Ignored(Fields(g, d)[i]) ==> FieldTransports(ops, g, Fields(g, d)[i], k)
  }

  /**
   A condition on descriptor and hardware alone: in every structure the keys of the fields
   that are not ignored are distinct, arrays sent item by item have at most INT_MAX items,
   and floats survive conversion.
   */
  ghost predicate StructTransports(ops: Floats, g: Graph, d: Ref, k: nat)
    requires Closed(g) && d < |g| && ValidWithin(g, d, k)
    decreases k, 2
  {
    && KeysDistinctIn(g, d, k)
    && forall i: nat :: i < |Fields(g, d)| ==> TransportsAt(ops, g, d, k, i)
  }

  ghost predicate KeysDistinctIn(g: Graph, d: Ref, k: nat)
    requires Closed(g) && d < |g| && ValidWithin(g, d, k)
  {
    AllNamed(g, d, k);
    KeysDistinct(Fields(g, d))
  }

  lemma {:induction false} AllNamed(g: Graph, d: Ref, k: nat)
    requires Closed(g) && d < |g| && ValidWithin(g, d, k)
    ensures forall i :: 0 <= i < |Fields(g, d)| ==> Fields(g, d)[i].name.Some?
  {
    forall i | 0 <= i < |Fields(g, d)| ensures Fields(g, d)[i].name.Some? {
      FieldPlaceable(g, d, k, i);
    }
  }

  lemma {:induction false} TransportedElement(
      ops: Floats, g: Graph, f: Field, src: Bytes, base: nat, k: nat, i: nat)
    requires Ready(g, f, src, base, k) && i < f.elementCount && FieldTransports(ops, g, f, k)
    ensures ElementFaithful(ops, g, f, src, base, k, i)
    decreases k, 0
  {
    ElementReady(g, f, src, base, k, i);
    if f.kind.Struct? {
      TransportedStruct(ops, g, f.nested.value, src, At(f, base, i), k - 1);
    }
  }

  /** Under the condition every instance is faithful, so StructRestored applies. */
  lemma {:induction false} TransportedStruct(ops: Floats, g: Graph, d: Ref, src: Bytes, base: nat, k: nat)
    requires StructReady(g, d, src, base, k) && StructTransports(ops, g, d, k)
    ensures StructFaithful(ops, g, d, src, base, k)
    decreases k, 1
  {
    forall i | 0 <= i < |Fields(g, d)| && !Ignored(Fields(g, d)[i])
      ensures Ready(g, Fields(g, d)[i], src, base, k) && FieldFaithful(ops, g, Fields(g, d)[i], src, base, k)
    {
      var f := Fields(g, d)[i];
      FieldsReady(g, d, src, base, k, i);
      FieldPlaceable(g, d, k, i);
      assert TransportsAt(ops, g, d, k, i);
      assert FieldTransports(ops, g, f, k);
      forall e | 0 <= e < f.elementCount ensures ElementFaithful(ops, g, f, src, base, k, e) {
        TransportedElement(ops, g, f, src, base, k, e);
      }
    }
  }

  // ------------------------------------------------------- when it is not met

  /** The goal of one field by itself: its own item under its own key. */
  ghost function ItemGoal(ops: Floats, g: Graph, f: Field, src: Bytes, base: nat, k: nat): Goal
    requires Ready(g, f, src, base, k) && FieldToJson(ops, g, f, src, base, k).Success?
  {
    Goal([Member(JsonKey(f), FieldToJson(ops, g, f, src, base, k).value)], src,
         ItemsTouch(g, f, src, false, base, k, 0))
  }

  /** Two encodable contents of a field of which no memory can get both back. */
  ghost predicate FieldRivals(ops: Floats, g: Graph, f: Field, a: Bytes, b: Bytes, base: nat, k: nat) {
    && Ready(g, f, a, base, k) && Ready(g, f, b, base, k) && |a| == |b|
    && FieldEncodable(g, f, a, base, k) && FieldEncodable(g, f, b, base, k)
    && FieldToJson(ops, g, f, a, base, k).Success? && FieldToJson(ops, g, f, b, base, k).Success?
    && FieldMeetsOne(ops, g, f, ItemGoal(ops, g, f, a, base, k), ItemGoal(ops, g, f, b, base, k), |a|, base, k)
  }

  /** Decoding element 0 alone gives the element of src its bytes back. */
  ghost predicate ElementGivenBack(ops: Floats, g: Graph, f: Field, src: Bytes, mem: Bytes, base: nat, k: nat)
    requires Ready(g, f, src, base, k) && Ready(g, f, mem, base, k)
    requires ElementToJson(ops, g, f, src, base, k, 0).Success?
  {
    var (code, after) := ElementFromJson(ops, g, f, ElementToJson(ops, g, f, src, base, k, 0).value, mem, base, k, 0);
    code == Ok && Agree(src, after, ElementTouch(g, f, src, false, base, k, 0))
  }

  /** An array that is decoded without error starts with its first element. */
  lemma {:induction false} ArrayStarts(
      ops: Floats, g: Graph, f: Field, members: seq<Member>, items: seq<Json>, mem: Bytes, base: nat, k: nat)
    requires Ready(g, f, mem, base, k) && !AsHexText(f) && !AsOneItem(f) && !Ignored(f)
    requires Lookup(members, JsonKey(f)) == Some(Arr(items)) && |items| == f.elementCount
    requires FieldFromJson(ops, g, f, members, mem, base, k).0 == Ok
    ensures var (code, after) := ElementFromJson(ops, g, f, items[0], mem, base, k, 0);
      && code == Ok
      && FieldFromJson(ops, g, f, members, mem, base, k).1 == ItemsFromJson(ops, g, f, items, after, base, k, 1).1
  {
  }

  /** If the field gets its bytes back then so does its first element. */
  lemma {:induction false} FirstElementMet(ops: Floats, g: Graph, f: Field, src: Bytes, mem: Bytes, base: nat, k: nat)
    requires Ready(g, f, src, base, k) && Ready(g, f, mem, base, k) && |mem| == |src| && !AsHexText(f) && !Ignored(f)
    requires FieldToJson(ops, g, f, src, base, k).Success?
    requires FieldMeets(ops, g, f, ItemGoal(ops, g, f, src, base, k), mem, base, k)
    ensures ElementToJson(ops, g, f, src, base, k, 0).Success? && ElementGivenBack(ops, g, f, src, mem, base, k)
  {
    var goal := ItemGoal(ops, g, f, src, base, k);
    assert Lookup(goal.members, JsonKey(f)) == Some(FieldToJson(ops, g, f, src, base, k).value);
    if AsOneItem(f) {
      SingleItemTouch(g, f, src, base, k);
    } else {
      ItemsEncode(ops, g, f, src, base, k, 0);
      var items := ItemsToJson(ops, g, f, src, base, k, 0).value;
      ArrayStarts(ops, g, f, goal.members, items, mem, base, k);
      var after := ElementFromJson(ops, g, f, items[0], mem, base, k, 0).1;
      FirstElementStays(ops, g, f, items, mem, after, base, k);
      ElementTouchAt(g, f, src, false, base, k, 0);
    }
  }

  lemma {:induction false} FirstElementStays(
      ops: Floats, g: Graph, f: Field, items: seq<Json>, room: Bytes, mem: Bytes, base: nat, k: nat)
    requires Ready(g, f, room, base, k) && |mem| == |room| && !f.kind.CharArray? && f.elementCount <= |items|
    ensures var out := ItemsFromJson(ops, g, f, items, mem, base, k, 1).1;
      |out| == |mem| && forall p: nat :: p < |mem| && p < At(f, base, 0) + ElementExtent(f) ==> out[p] == mem[p]
  {
    ItemsFrame(ops, g, f, items, room, mem, base, k, 1);
    ItemsTouchFrom(g, f, room, true, base, k, 1);
    assert At(f, base, 1) == At(f, base, 0) + f.elementSize;
  }

  /** Rival contents of element 0 make rival contents of the field. */
  lemma {:induction false} RivalsByElement(ops: Floats, g: Graph, f: Field, a: Bytes, b: Bytes, base: nat, k: nat)
    requires Ready(g, f, a, base, k) && Ready(g, f, b, base, k) && |a| == |b| && !AsHexText(f) && !Ignored(f)
    requires FieldEncodable(g, f, a, base, k) && FieldEncodable(g, f, b, base, k)
    requires ElementToJson(ops, g, f, a, base, k, 0).Success? && ElementToJson(ops, g, f, b, base, k, 0).Success?
    requires forall mem: Bytes :: |mem| == |a| && Ready(g, f, mem, base, k) ==>
      !(ElementGivenBack(ops, g, f, a, mem, base, k) && ElementGivenBack(ops, g, f, b, mem, base, k))
    ensures FieldRivals(ops, g, f, a, b, base, k)
  {
    FieldEncodes(ops, g, f, a, base, k);
    FieldEncodes(ops, g, f, b, base, k);
    var goalA, goalB := ItemGoal(ops, g, f, a, base, k), ItemGoal(ops, g, f, b, base, k);
    forall mem: Bytes | |mem| == |a| && Ready(g, f, mem, base, k)
      ensures !(FieldMeets(ops, g, f, goalA, mem, base, k) && FieldMeets(ops, g, f, goalB, mem, base, k))
    {
      if FieldMeets(ops, g, f, goalA, mem, base, k) && FieldMeets(ops, g, f, goalB, mem, base, k) {
        FirstElementMet(ops, g, f, a, mem, base, k);
        FirstElementMet(ops, g, f, b, mem, base, k);
      }
    }
  }

  /** An array of more than INT_MAX items is its own rival: it never comes back. */
  lemma {:induction false} LongArrayRivals(ops: Floats, g: Graph, f: Field, a: Bytes, base: nat, k: nat)
    requires Ready(g, f, a, base, k) && FieldEncodable(g, f, a, base, k) && !Ignored(f)
    requires !AsHexText(f) && !AsOneItem(f) && f.elementCount > INT_MAX
    ensures FieldRivals(ops, g, f, a, a, base, k)
  {
    FieldEncodes(ops, g, f, a, base, k);
    var goal := ItemGoal(ops, g, f, a, base, k);
    forall mem: Bytes | |mem| == |a| && Ready(g, f, mem, base, k) ensures !FieldMeets(ops, g, f, goal, mem, base, k) {
      LongArrayRefused(ops, g, f, goal.members, mem, base, k);
    }
  }

  lemma {:induction false} SameStretch(a: Bytes, b: Bytes, at: nat, n: nat)
    requires at + n <= |a| == |b|
    ensures Agree(a, b, Range(at, n)) ==> a[at..at + n] == b[at..at + n]
  {
  }

  /** A float that conversion changes, put into element 0. */
  lemma {:induction false} FloatRivals(ops: Floats, g: Graph, f: Field, a: Bytes, base: nat, k: nat) returns (b: Bytes)
    requires Ready(g, f, a, base, k) && FieldEncodable(g, f, a, base, k) && !Ignored(f)
    requires f.kind.Float? && !FloatsFaithful(ops)
    ensures SameBeside(a, b, f, base) && FieldRivals(ops, g, f, b, b, base, k)
  {
    ElementReady(g, f, a, base, k, 0);
    ElementFits(f, base, 0);
    var at := At(f, base, 0);
    var bad: Float4 :| ops.narrow(ops.widen(bad)) != bad;
    assert ElementEncodable(g, f, a, base, k, 0);
    b := Overwrite(a, at, bad);
    assert b[at..at + 4] == bad;
    FieldSpliced(ops, g, f, a, b, base, k);
    ElementEncodes(ops, g, f, b, base, k, 0);
    forall mem: Bytes | |mem| == |b| && Ready(g, f, mem, base, k)
      ensures !ElementGivenBack(ops, g, f, b, mem, base, k)
    {
      var after := ElementFromJson(ops, g, f, ElementToJson(ops, g, f, b, base, k, 0).value, mem, base, k, 0).1;
      assert after[at..at + 4] == ops.narrow(ops.widen(bad));
      SameStretch(b, after, at, 4);
    }
    RivalsByElement(ops, g, f, b, b, base, k);
  }

  lemma {:induction false} FirstEncodable(g: Graph, f: Field, src: Bytes, base: nat, k: nat)
    requires Ready(g, f, src, base, k) && FieldEncodable(g, f, src, base, k) && !AsHexText(f)
    ensures ElementEncodable(g, f, src, base, k, 0)
  {
  }

  lemma {:induction false} StructIsNotHex(f: Field)
    requires f.kind.Struct?
    ensures !AsHexText(f)
  {
    if AsHexText(f) {
      HexIsByteArray(f, 0);
    }
  }

  /** Rival instances that differ from src in the structure only. */
  ghost predicate RivalsNear(ops: Floats, g: Graph, d: Ref, src: Bytes, a: Bytes, b: Bytes, base: nat, k: nat)
    requires StructReady(g, d, src, base, k)
  {
    && SameOutside(src, a, base, base + g[d].size) && SameOutside(src, b, base, base + g[d].size)
    && StructEncodable(g, d, a, base, k) && StructEncodable(g, d, b, base, k)
    && Rivals(ops, g, d, a, b, base, k)
  }

  /** Rival contents of a nested structure make rival contents of the field that holds it. */
  lemma {:induction false} RivalsByNested(
      ops: Floats, g: Graph, f: Field, src: Bytes, a: Bytes, b: Bytes, base: nat, k: nat)
    requires Ready(g, f, src, base, k) && FieldEncodable(g, f, src, base, k) && !Ignored(f)
    requires f.kind.Struct? && f.nested.Some? && k > 0 && StructReady(g, f.nested.value, src, At(f, base, 0), k - 1)
    requires RivalsNear(ops, g, f.nested.value, src, a, b, At(f, base, 0), k - 1)
    ensures SameBeside(src, a, f, base) && SameBeside(src, b, f, base) && FieldRivals(ops, g, f, a, b, base, k)
  {
    StructIsNotHex(f);
    ElementReady(g, f, src, base, k, 0);
    ElementFits(f, base, 0);
    FieldSpliced(ops, g, f, src, a, base, k);
    FieldSpliced(ops, g, f, src, b, base, k);
    ElementEncodes(ops, g, f, a, base, k, 0);
    ElementEncodes(ops, g, f, b, base, k, 0);
    forall mem: Bytes | |mem| == |a| && Ready(g, f, mem, base, k)
      ensures !(ElementGivenBack(ops, g, f, a, mem, base, k) && ElementGivenBack(ops, g, f, b, mem, base, k))
    {
      ElementReady(g, f, mem, base, k, 0);
    }
    RivalsByElement(ops, g, f, a, b, base, k);
  }

  lemma {:induction false} BrokenField(ops: Floats, g: Graph, f: Field, src: Bytes, base: nat, k: nat)
    returns (a: Bytes, b: Bytes)
    requires Built.Ordered(g) && Ready(g, f, src, base, k) && FieldEncodable(g, f, src, base, k) && !Ignored(f)
    requires !FieldTransports(ops, g, f, k) && (f.kind.Struct? ==> AllVary(g, f.nested.value, k - 1))
    ensures SameBeside(src, a, f, base) && SameBeside(src, b, f, base) && FieldRivals(ops, g, f, a, b, base, k)
    decreases k, 0
  {
    if !(AsHexText(f) || AsOneItem(f) || f.elementCount <= INT_MAX) {
      a, b := src, src;
      LongArrayRivals(ops, g, f, src, base, k);
    } else if f.kind.Float? {
      a := FloatRivals(ops, g, f, src, base, k);
      b := a;
    } else {
      StructIsNotHex(f);
      ElementReady(g, f, src, base, k, 0);
      FirstEncodable(g, f, src, base, k);
      a, b := BrokenStruct(ops, g, f.nested.value, src, At(f, base, 0), k - 1);
      RivalsByNested(ops, g, f, src, a, b, base, k);
    }
  }

  /** If the condition fails, then near every encodable instance there are two that are not both given back. */
  lemma {:induction false} BrokenStruct(ops: Floats, g: Graph, d: Ref, src: Bytes, base: nat, k: nat)
    returns (a: Bytes, b: Bytes)
    requires Built.Ordered(g) && StructReady(g, d, src, base, k) && StructEncodable(g, d, src, base, k)
    requires AllVary(g, d, k) && !StructTransports(ops, g, d, k)
    ensures RivalsNear(ops, g, d, src, a, b, base, k)
    decreases k, 1
  {
    hide FieldMeetsOne, FieldVaries, FieldEncodable, AttributesOk, ByteFormatOf;
    AllNamed(g, d, k);
    if !KeysDistinct(Fields(g, d)) {
      var i, j :| 0 <= i < j < |Fields(g, d)| && !Ignored(Fields(g, d)[i]) && !Ignored(Fields(g, d)[j])
        && JsonKey(Fields(g, d)[i]) == JsonKey(Fields(g, d)[j]);
      a := src;
      assert VariesAt(g, d, k, j);
      b := SharedKeyIsNotRestored(ops, g, d, src, base, k, i, j);
    } else {
      var j: nat :| j < |Fields(g, d)| && !TransportsAt(ops, g, d, k, j);
      var f := Fields(g, d)[j];
      FieldsReady(g, d, src, base, k, j);
      EncodableField(g, d, src, base, k, 0, j);
      a, b := BrokenField(ops, g, f, src, base, k);
      RivalsBySplicing(ops, g, d, src, a, b, base, k, j);
    }
  }

  /**
   Two fields share a key and the later one can hold two values: every encodable instance
   has a variant, differing only in bytes of the later field, such that no memory gets
   both back.
   */
  lemma {:induction false} SharedKeyIsNotRestored(
      ops: Floats, g: Graph, d: Ref, src: Bytes, base: nat, k: nat, i: nat, j: nat) returns (b: Bytes)
    requires Built.Ordered(g) && StructReady(g, d, src, base, k) && StructEncodable(g, d, src, base, k)
    requires i < j < |Fields(g, d)| && !Ignored(Fields(g, d)[i]) && VariesAt(g, d, k, j)
    requires Fields(g, d)[i].name.Some? && Fields(g, d)[j].name.Some?
    requires JsonKey(Fields(g, d)[i]) == JsonKey(Fields(g, d)[j])
    ensures SameBeside(src, b, Fields(g, d)[j], base) && SameOutside(src, b, base, base + g[d].size)
    ensures StructEncodable(g, d, b, base, k) && Rivals(ops, g, d, src, b, base, k)
  {
    var f := Fields(g, d)[j];
    FieldsReady(g, d, src, base, k, j);
    EncodableField(g, d, src, base, k, 0, j);
    var p: nat;
    b, p := ValueVariant(ops, g, f, src, base, k);
    assert FieldOk(g, f, g[d].size);
    MembersSpliced(ops, g, d, src, b, base, k, j, 0);
    SharedKeyRivals(ops, g, d, src, b, base, k, i, j, p);
  }

  /** With distinct keys, rival contents of a field make rival instances. */
  lemma {:induction false} OwnKeyRivals(ops: Floats, g: Graph, d: Ref, a: Bytes, b: Bytes, base: nat, k: nat, j: nat)
    requires Built.Ordered(g) && StructReady(g, d, a, base, k) && StructReady(g, d, b, base, k) && |a| == |b|
    requires StructEncodable(g, d, a, base, k) && StructEncodable(g, d, b, base, k) && KeysDistinctIn(g, d, k)
    requires j < |Fields(g, d)| && !Ignored(Fields(g, d)[j]) && SameBeside(a, b, Fields(g, d)[j], base)
    requires FieldRivals(ops, g, Fields(g, d)[j], a, b, base, k)
    ensures Rivals(ops, g, d, a, b, base, k)
  {
    var f := Fields(g, d)[j];
    AllNamed(g, d, k);
    StructEncodes(ops, g, d, a, base, k);
    StructEncodes(ops, g, d, b, base, k);
    assert FirstWithKey(Fields(g, d), 0, j);
    MemberFound(ops, g, d, a, base, k, 0, j);
    MemberFound(ops, g, d, b, base, k, 0, j);
    var goalA, goalB := GoalOf(ops, g, d, a, base, k, j), GoalOf(ops, g, d, b, base, k, j);
    var itemA, itemB := ItemGoal(ops, g, f, a, base, k), ItemGoal(ops, g, f, b, base, k);
    forall mem: Bytes | |mem| == |a| && Ready(g, f, mem, base, k)
      ensures !(FieldMeets(ops, g, f, goalA, mem, base, k) && FieldMeets(ops, g, f, goalB, mem, base, k))
    {
      FieldSeesLookup(ops, g, f, goalA.members, itemA.members, mem, base, k);
      FieldSeesLookup(ops, g, f, goalB.members, itemB.members, mem, base, k);
      assert !(FieldMeets(ops, g, f, itemA, mem, base, k) && FieldMeets(ops, g, f, itemB, mem, base, k));
    }
    RivalsByField(ops, g, d, a, b, base, k, j);
  }

  /** Rival contents of a field, put into an instance, make rival instances. */
  lemma {:induction false} RivalsBySplicing(
      ops: Floats, g: Graph, d: Ref, src: Bytes, a: Bytes, b: Bytes, base: nat, k: nat, j: nat)
    requires Built.Ordered(g) && StructReady(g, d, src, base, k) && StructEncodable(g, d, src, base, k)
    requires KeysDistinctIn(g, d, k) && j < |Fields(g, d)| && !Ignored(Fields(g, d)[j])
    requires SameBeside(src, a, Fields(g, d)[j], base) && SameBeside(src, b, Fields(g, d)[j], base)
    requires FieldRivals(ops, g, Fields(g, d)[j], a, b, base, k)
    ensures RivalsNear(ops, g, d, src, a, b, base, k)
  {
    assert FieldOk(g, Fields(g, d)[j], g[d].size);
    MembersSpliced(ops, g, d, src, a, base, k, j, 0);
    MembersSpliced(ops, g, d, src, b, base, k, j, 0);
    OwnKeyRivals(ops, g, d, a, b, base, k, j);
  }

  // ------------------------------------------------- when there are instances

  ghost predicate FieldRepresentable(g: Graph, f: Field, k: nat)
    requires Placeable(g, f, k)
    decreases k, 0
  {
    if AsHexText(f) then f.elementCount <= (SIZE_MAX - 1) / 3
    else
      match f.kind
      case Struct => StructRepresentable(g, f.nested.value, k - 1)
      case Float => f.elementSize == 4
      case Double => f.elementSize == 8
      case _ => true
  }

  /** From field i on, every field that is not ignored is representable. */
  ghost predicate MembersRepresentable(g: Graph, d: Ref, k: nat, i: nat)
    requires Closed(g) && d < |g| && ValidWithin(g, d, k) && i <= |Fields(g, d)|
    decreases k, 1, |Fields(g, d)| - i
  {
    i == |Fields(g, d)| || (
      FieldPlaceable(g, d, k, i);
      && (!Ignored(Fields(g, d)[i]) ==> FieldRepresentable(g, Fields(g, d)[i], k))
      && MembersRepresentable(g, d, k, i + 1))
  }

  /** Floating-point fields have the width of their type and hex arrays a representable text. */
  ghost predicate StructRepresentable(g: Graph, d: Ref, k: nat)
    requires Closed(g) && d < |g| && ValidWithin(g, d, k)
    decreases k, 2
  {
    MembersRepresentable(g, d, k, 0)
  }

  ghost predicate AllZero(src: Bytes) {
    forall p :: 0 <= p < |src| ==> src[p] == 0
  }

  lemma {:induction false} ElementRepresented(g: Graph, f: Field, src: Bytes, base: nat, k: nat, i: nat)
    requires Ready(g, f, src, base, k) && i < f.elementCount && !AsHexText(f)
    ensures ElementEncodable(g, f, src, base, k, i) ==> FieldRepresentable(g, f, k)
    ensures AllZero(src) && FieldRepresentable(g, f, k) ==> ElementEncodable(g, f, src, base, k, i)
    decreases k, 0
  {
    ElementReady(g, f, src, base, k, i);
    if f.kind.Struct? {
      StructRepresented(g, f.nested.value, src, At(f, base, i), k - 1);
    } else if f.kind.CharArray? && AllZero(src) {
      assert src[At(f, base, i)..At(f, base, i) + f.charBufferSize][0] == 0;
    }
  }

  lemma {:induction false} ItemsRepresented(g: Graph, f: Field, src: Bytes, base: nat, k: nat, i: nat)
    requires Ready(g, f, src, base, k) && i <= f.elementCount && !AsHexText(f)
    ensures i < f.elementCount && ItemsEncodable(g, f, src, base, k, i) ==> FieldRepresentable(g, f, k)
    ensures AllZero(src) && FieldRepresentable(g, f, k) ==> ItemsEncodable(g, f, src, base, k, i)
    decreases k, 1, f.elementCount - i
  {
    if i < f.elementCount {
      ElementRepresented(g, f, src, base, k, i);
      ItemsRepresented(g, f, src, base, k, i + 1);
    }
  }

  lemma {:induction false} FieldRepresented(g: Graph, f: Field, src: Bytes, base: nat, k: nat)
    requires Ready(g, f, src, base, k)
    ensures FieldEncodable(g, f, src, base, k) ==> FieldRepresentable(g, f, k)
    ensures AllZero(src) && FieldRepresentable(g, f, k) ==> FieldEncodable(g, f, src, base, k)
    decreases k, 2
  {
    if !AsHexText(f) {
      ItemsRepresented(g, f, src, base, k, 0);
    }
  }

  lemma {:induction false} MembersRepresented(g: Graph, d: Ref, src: Bytes, base: nat, k: nat, i: nat)
    requires StructReady(g, d, src, base, k) && i <= |Fields(g, d)|
    ensures MembersEncodable(g, d, src, base, k, i) ==> MembersRepresentable(g, d, k, i)
    ensures AllZero(src) && MembersRepresentable(g, d, k, i) ==> MembersEncodable(g, d, src, base, k, i)
    decreases k, 3, |Fields(g, d)| - i
  {
    hide FieldEncodable, FieldRepresentable, FieldOk;
    if i < |Fields(g, d)| {
      FieldsReady(g, d, src, base, k, i);
      FieldPlaceable(g, d, k, i);
      FieldRepresented(g, Fields(g, d)[i], src, base, k);
      MembersRepresented(g, d, src, base, k, i + 1);
    }
  }

  /** A descriptor has an encodable instance exactly when it is representable; all zeros is one. */
  lemma {:induction false} StructRepresented(g: Graph, d: Ref, src: Bytes, base: nat, k: nat)
    requires StructReady(g, d, src, base, k)
    ensures StructEncodable(g, d, src, base, k) ==> StructRepresentable(g, d, k)
    ensures AllZero(src) && StructRepresentable(g, d, k) ==> StructEncodable(g, d, src, base, k)
    decreases k, 4
  {
    MembersRepresented(g, d, src, base, k, 0);
  }

  // --------------------------------------------------------------- the theorem

  /** The round trip of src through dst, in full. */
  ghost predicate Restored(ops: Floats, g: Graph, d: Ref, src: Bytes, dst: Bytes, base: nat, k: nat)
    requires StructReady(g, d, src, base, k) && StructReady(g, d, dst, base, k)
    requires StructEncodable(g, d, src, base, k)
  {
    StructEncodes(ops, g, d, src, base, k);
    var (code, out) := StructFromJson(ops, g, d, StructToJson(ops, g, d, src, base, k).value, dst, base, k);
    code == Ok && Merged(src, dst, out, StructTouch(g, d, src, false, base, k))
  }

  ghost predicate RestoredAnywhere(ops: Floats, g: Graph, d: Ref, src: Bytes, base: nat, k: nat)
    requires StructReady(g, d, src, base, k) && StructEncodable(g, d, src, base, k)
  {
    forall dst: Bytes :: |dst| == |src| ==> Restored(ops, g, d, src, dst, base, k)
  }

  ghost predicate EveryInstanceRestored(ops: Floats, g: Graph, d: Ref, n: nat, base: nat, k: nat) {
    forall src: Bytes :: |src| == n && StructReady(g, d, src, base, k) && StructEncodable(g, d, src, base, k) ==>
      RestoredAnywhere(ops, g, d, src, base, k)
  }

  /**
   The round trip is exact: for an ordered descriptor whose fields can all hold two values,
   every encodable instance is restored into every other exactly when keys are distinct,
   arrays are short enough and floats survive, or when there is no encodable instance.
   */
  lemma {:induction false} EveryInstanceRestoredIff(ops: Floats, g: Graph, d: Ref, n: nat, base: nat, k: nat)
    requires Built.Ordered(g) && Closed(g) && d < |g| && ValidWithin(g, d, k) && base + g[d].size <= n
    requires AllVary(g, d, k)
    ensures EveryInstanceRestored(ops, g, d, n, base, k) <==>
      (StructRepresentable(g, d, k) ==> StructTransports(ops, g, d, k))
  {
    if !StructRepresentable(g, d, k) {
      forall src: Bytes | |src| == n && StructReady(g, d, src, base, k) ensures !StructEncodable(g, d, src, base, k) {
        StructRepresented(g, d, src, base, k);
      }
    } else if StructTransports(ops, g, d, k) {
      TransportsRestore(ops, g, d, n, base, k);
    } else {
      var zeros: Bytes := seq(n, _ => 0);
      StructRepresented(g, d, zeros, base, k);
      BrokenIsNotRestored(ops, g, d, zeros, base, k);
    }
  }

  lemma {:induction false} BrokenIsNotRestored(ops: Floats, g: Graph, d: Ref, some: Bytes, base: nat, k: nat)
    requires Built.Ordered(g) && StructReady(g, d, some, base, k) && StructEncodable(g, d, some, base, k)
    requires AllVary(g, d, k) && !StructTransports(ops, g, d, k)
    ensures !EveryInstanceRestored(ops, g, d, |some|, base, k)
  {
    var a, b := BrokenStruct(ops, g, d, some, base, k);
    if RestoredAnywhere(ops, g, d, a, base, k) && RestoredAnywhere(ops, g, d, b, base, k) {
      RestoredGivesBack(ops, g, d, a, some, base, k);
      RestoredGivesBack(ops, g, d, b, some, base, k);
    }
  }

  lemma {:induction false} TransportsRestore(ops: Floats, g: Graph, d: Ref, n: nat, base: nat, k: nat)
    requires Closed(g) && d < |g| && ValidWithin(g, d, k) && base + g[d].size <= n
    requires StructTransports(ops, g, d, k)
    ensures EveryInstanceRestored(ops, g, d, n, base, k)
  {
    forall src: Bytes, dst: Bytes
      | |src| == n && |dst| == |src| && StructReady(g, d, src, base, k) && StructEncodable(g, d, src, base, k)
      ensures Restored(ops, g, d, src, dst, base, k)
    {
      StructEncodes(ops, g, d, src, base, k);
      TransportedStruct(ops, g, d, src, base, k);
      StructRestored(ops, g, d, src, dst, base, k);
    }
  }

  lemma {:induction false} RestoredGivesBack(ops: Floats, g: Graph, d: Ref, src: Bytes, dst: Bytes, base: nat, k: nat)
    requires StructReady(g, d, src, base, k) && StructReady(g, d, dst, base, k) && |dst| == |src|
    requires StructEncodable(g, d, src, base, k) && Restored(ops, g, d, src, dst, base, k)
    ensures StructToJson(ops, g, d, src, base, k).Success? && GivesBack(ops, g, d, src, dst, base, k)
  {
    StructEncodes(ops, g, d, src, base, k);
  }
}
